# TPMS packet protocol — a Dafny model

This project models the packet layer of a tyre-pressure-monitoring (TPMS)
telemetry demonstrator and proves properties of it. The demonstrator has a
plaintext baseline and an encrypted variant.

- **Baseline (Schrader-style) frame**, 17 bytes: eight `0x55` preamble bytes,
  the sync word `2D D4`, a 5-byte payload and a CRC-16 of the payload. The
  payload holds a 24-bit big-endian sensor id, a flags byte and a pressure
  byte `trunc(psi × 2.755) mod 256`. The CRC is CRC-16/CCITT-FALSE
  (generator 0x1021, initial register 0xFFFF, MSB first, no final XOR). The
  sensor builds the frame. The ECU finds the first sync word and decodes the
  payload. A CRC mismatch is reported as a flag, not as a rejection. A
  passive eavesdropper decodes the same bytes without looking at the CRC and
  keeps a per-id sightings map.
- **Encrypted frame**, 47 bytes: preamble, sync, a 16-byte nonce, then the
  same 5-byte payload sealed with Ascon-128 and empty associated data (5
  ciphertext bytes and a 16-byte tag). Ascon is modelled as an abstract
  oracle constrained by two axioms: the ciphertext is the plaintext plus 16
  bytes, and decryption under the same key, nonce and associated data
  returns the plaintext. A toy oracle shows the axioms can hold together.
  The receivers are:
  - a single-key ECU that reports a tagged error string;
  - a multi-key trial decoder that accepts a key only if the decrypted id is
    that key's owner;
  - a radio receiver that slides a 37-byte window over a buffer, stops at
    the first window that decrypts, and suppresses a report equal to the
    last one emitted within 2.0 seconds;
  - an eavesdropper that classifies frames by the bytes left after the sync
    word.
- **SDR framing**: 100 preamble bytes, the sync word, the payload length as
  two big-endian bytes sent twice, then the data.

One module per source file. Shared pieces have their own modules:

| module | contents |
|---|---|
| `Bytes` | big-endian packing |
| `Crc16` | the checksum |
| `ByteVectors` | bytes as 8-bit vectors for the CRC register |
| `Sync` | the sync-word search |
| `Hex` | hex rendering and the six-digit id key |
| `Payload` | the 5-byte payload and pressure quantisation |
| `Aead` | the oracle |
| `Timestamps` | the eavesdroppers' timestamp text |

Modelling choices:

- **Pressure** is an exact rational `num/den` (psi). Quantisation truncates
  toward zero, as Python's `int()` does. So 37.5 psi gives byte 0x67 and
  −1 psi (−2.755, truncated to −2) gives byte 0xFE.
- **Nonces, keys, key files, the key store and timestamps** are parameters.
- **The key store** is a sequence, in the store's iteration order. It is
  `None` when the receiver's key file is missing.
- **Time** in the dedup filter is a `real`.
- **The receiver's window scan** is stated for any decoder of candidate
  frames. `Receiver.TrialDecoder`, the multi-key `decrypt_tpms_packet`, is
  the decoder `Receiver.ReceiveBuffer` uses.
- **CRC copies.** `calculate_crc` runs the same register loop in
  `baseline_no_encryption/sensor.py`, `baseline_no_encryption/euc.py` and
  `performance_analysis/performance_benchmark.py`. The `euc.py` copy returns
  the register as an int, modelled by `Crc16.Crc`. The sensor and benchmark
  copies return `struct.pack('>H', crc)`, modelled by `Crc16.CrcBytes`.
- **Flags schedule.** The encrypting sensor's schedule
  (`simulation_encrypted/sensor_encrypted.py:75`) is the same expression as
  the baseline sensor's, and `BaselineSensor.FlagsFor` models both.
- **Sync search.** `find_sync_word` appears in four files with the same text.
  `Sync.FindSync` models all of them.
- **Rounded pressure.** The source rounds the pressure to three decimals,
  `round(raw / 2.755, 3)`. This is injective on bytes, so the model keeps
  the raw byte wherever the source compares or stores that value.

## Model

| member | source | states |
|---|---|---|
| Bytes.UnpackPackU32 | baseline_no_encryption/sensor.py:42 | Reading back the four big-endian bytes of `struct.pack('>I', v)` gives `v`, for every 32-bit value. |
| Bytes.PackUnpackU32 | baseline_no_encryption/euc.py:59 | Packing the value of any four bytes reproduces those bytes, so the 32-bit unpack loses nothing. |
| Bytes.LowThreeBytes | baseline_no_encryption/sensor.py:42 | Dropping the top packed byte and re-padding with `\x00`, as the decoders do, yields exactly `id mod 2^24`. |
| Bytes.UnpackPackU16 | baseline_no_encryption/euc.py:50 | The two-byte big-endian unpack inverts `struct.pack('>H')` for every value below 65536. |
| Bytes.PackUnpackU16 | SDR/RFModem.py:184 | Every two-byte string is the big-endian packing of its own value. |
| Crc16.Crc | baseline_no_encryption/euc.py:24-34 | The checksum is a 16-bit value, and the empty message gives the initial register 0xFFFF. |
| Crc16.CheckValue | baseline_no_encryption/euc.py:24-34 | The checksum of the ASCII text "123456789" is 0x29B1, the catalogue check value of CRC-16/CCITT-FALSE. This pins the generator 0x1021, the initial register 0xFFFF and the MSB-first bit order. |
| Crc16.CrcBytes | baseline_no_encryption/sensor.py:21-33 | The sensor's checksum is two bytes whose big-endian value is the CRC register. |
| Crc16.CrcFromAppend | baseline_no_encryption/sensor.py:25-32 | Absorbing `a + b` equals absorbing `a` and then `b` from the resulting register. |
| Crc16.UpdateByteInjectiveInRegister | baseline_no_encryption/sensor.py:26-32 | One byte step maps distinct registers to distinct registers. |
| Crc16.UpdateByteInjectiveInByte | baseline_no_encryption/sensor.py:26-32 | From the same register, distinct bytes lead to distinct registers. |
| Crc16.CrcFromInjective | baseline_no_encryption/sensor.py:25-32 | Distinct starting registers stay distinct after absorbing any message. |
| Crc16.SingleByteErrorDetected | baseline_no_encryption/euc.py:48-53 | Two equal-length messages that differ in exactly one byte have different CRCs. |
| Crc16.SingleBitFlipDetected | baseline_no_encryption/euc.py:48-53 | Flipping any single bit of any message changes its CRC. |
| Crc16.CrcBytesDetectFlip | baseline_no_encryption/sensor.py:33 | A single bit flip in a message also changes the two packed CRC bytes. |
| Sync.FindSync | baseline_no_encryption/euc.py:17-21 | The result is the least `i` with `data[i..i+2] == 2D D4`, or −1 exactly when there is none. A found index is below `len − 1`, and inputs shorter than 2 give −1. |
| Sync.FindSyncPrefix | baseline_no_encryption/euc.py:18-20 | Cutting the buffer anywhere after the first sync word does not move it. |
| Sync.FindSyncExtend | baseline_no_encryption/euc.py:18-20 | Appending bytes never moves an existing first sync word. |
| Sync.FindSyncAfterPreamble | baseline_no_encryption/sensor.py:17-18 | Behind the `0x55` preamble, the sync word is found at index 8 whatever follows. |
| Sync.FindSyncLeading | RF_Simulation_RX.py:48 | A buffer that starts with the sync word has its sync at index 0. |
| Hex.JoinHex | baseline_no_encryption/sensor.py:64-66 | `n ≥ 1` bytes render as `3n − 1` characters, and the empty packet renders as the empty string. |
| Hex.JoinHexLayout | baseline_no_encryption/sensor.py:66 | Byte `i` appears as its two upper-case digits at position `3i`, followed by a space for every byte but the last. |
| Hex.Upper2RoundTrip | baseline_no_encryption/sensor.py:66 | The two upper-case digits written for a byte read back as that byte. |
| Hex.Upper2Injective | baseline_no_encryption/sensor.py:66 | Distinct bytes get distinct two-digit renderings. |
| Hex.TruncatedHex | baseline_no_encryption/eavesdropper.py:83-88 | The first `min(len, max_bytes)` bytes are rendered as by `packet_to_hex_string`, so the text has `3·min(len, max_bytes) − 1` characters, plus `...` (3 more) exactly when the packet is longer than `max_bytes`. A packet that fits renders in full. |
| Hex.TruncatedHexLayout | baseline_no_encryption/eavesdropper.py:84-85 | Each displayed byte `i` appears as its upper-case pair at characters `3i` and `3i+1` of the truncated rendering. |
| Hex.LowerHex | eavesdropper.py:51 | `bytes.hex()` has two characters per byte; `Hex.LowerHexValue` reads every byte back from its pair. |
| Hex.Lower2RoundTrip | eavesdropper.py:51 | The two lower-case digits of a byte read back, high digit first, as the byte. |
| Hex.LowerHexValue | eavesdropper.py:51 | Byte `i` of the input reads back from characters `2i` and `2i+1` of the `bytes.hex()` text. |
| Hex.LowerHexInjective | eavesdropper.py:51 | Distinct byte strings have distinct `bytes.hex()` texts, so the exposed nonce determines the nonce bytes. |
| Hex.IdHex | baseline_no_encryption/euc.py:72 | A 24-bit id renders as exactly six characters. |
| Hex.IdHexValue | eavesdropper.py:33 | The six upper-case digits of `f"{id:06X}"`, read most significant first, give back the id. |
| Hex.IdHexInjective | baseline_no_encryption/eavesdropper.py:57-62 | Distinct 24-bit ids give distinct six-digit keys, so the tracking map never merges two sensors. |
| Payload.TruncDiv | baseline_no_encryption/sensor.py:49 | `int()` of a quotient truncates toward zero: the bounds hold for both signs of the numerator. |
| Payload.EncodePayload | simulation_encrypted/sensor_encrypted.py:28-34 | The plaintext is 5 bytes, byte 3 is `flags mod 256`, and byte 4 is the truncated pressure mod 256. |
| Payload.ParseFields | baseline_no_encryption/euc.py:59-61 | The decoded id is below 2^24, and flags and pressure are payload bytes 3 and 4. |
| Payload.PayloadRoundTrip | baseline_no_encryption/sensor.py:39-50 | Decoding an encoded payload gives `id mod 2^24`, `flags mod 256` and the pressure byte. |
| Payload.QuantizeOfRaw | baseline_no_encryption/sensor.py:49-50 | Every raw byte is the quantisation of some pressure, namely `raw / 2.755`. |
| Payload.EncodeParsed | simulation_encrypted/sensor_encrypted.py:28-34 | Every 5-byte string is the payload of some reading: the encoder is onto. |
| Payload.QuantizeExample | baseline_no_encryption/sensor.py:49-50 | 37.5 psi quantises to 103, byte 0x67. |
| Payload.QuantizeNegative | baseline_no_encryption/sensor.py:49-50 | A negative pressure truncates toward zero and then wraps: −1 psi gives −2 and byte 254. |
| BaselineSensor.CreateBinaryPacket | baseline_no_encryption/sensor.py:36-61 | The frame is 17 bytes: preamble, sync, the payload at bytes 10..15, and the big-endian CRC of exactly those 5 bytes. |
| BaselineSensor.DecodeOwnPacket | baseline_no_encryption/sensor.py:78-93 | Reads id (below 2^24), flags and pressure at the fixed offset 10. |
| BaselineSensor.DecodeOwnRoundTrip | baseline_no_encryption/sensor.py:78-103 | Decoding the sensor's own frame returns `id mod 2^24`, `flags mod 256` and the raw pressure byte. |
| BaselineSensor.FlagsFor | baseline_no_encryption/sensor.py:125 | The flags are always 5 or 7. |
| BaselineSensor.FlagsPeriod | simulation_encrypted/sensor_encrypted.py:75 | The first packet carries 7. The schedule has period 5, and each 7 is followed by four 5s. |
| BaselineEcu.DecodePacket | baseline_no_encryption/euc.py:37-75 | `None` exactly when there is no sync or fewer than 7 bytes follow it. Otherwise the fields come from the 5 bytes after the first sync, and `crc_valid` holds iff the next two bytes equal the CRC of those 5. |
| BaselineEcu.DecodesSensorPacket | baseline_no_encryption/euc.py:39-53 | On the sensor's frame, sync is found at 8 and the report is the sensor's fields with `crc_valid = true`. |
| BaselineEcu.CrcMismatchStillDecoded | baseline_no_encryption/euc.py:55-61 | Any 5 payload bytes with any 2 CRC bytes decode to the payload's fields. The CRC verdict is only a flag. |
| BaselineEcu.TamperedPayloadFlagged | baseline_no_encryption/euc.py:48-53 | Flipping any single payload bit of a sensor frame still decodes, with `crc_valid = false`. |
| BaselineEcu.TrailingBytesIgnored | baseline_no_encryption/euc.py:48-50 | Bytes appended to a decodable packet do not change the result. |
| BaselineEcu.FirstSyncOnly | baseline_no_encryption/euc.py:39-46 | Only the first sync word is tried. A stray `2D D4` in front of a valid frame makes the decoder read the preamble bytes as the payload. |
| BaselineEavesdropper.DecodePacket | baseline_no_encryption/eavesdropper.py:21-47 | `None` exactly when there is no sync or fewer than 7 bytes follow it. Otherwise it returns the payload fields after the first sync. |
| BaselineEavesdropper.SeesWhatEcuSees | baseline_no_encryption/eavesdropper.py:23-38 | The eavesdropper decodes exactly the packets the ECU decodes, to the same fields. |
| BaselineEavesdropper.CrcNeverExamined | baseline_no_encryption/eavesdropper.py:32-38 | Frames differing only in their CRC bytes decode identically. |
| BaselineEavesdropper.LogInterception | baseline_no_encryption/eavesdropper.py:50-76 | An undecodable packet changes nothing. A decoded one keeps or creates `first_seen` and appends exactly one sighting under its id. The key set grows by that id only, other ids are untouched, and `total_sightings` is the new list length. |
| BaselineEavesdropper.FirstSeenStable | baseline_no_encryption/eavesdropper.py:62-66 | Over any run of packets, a tracked id keeps its `first_seen`. |
| BaselineEavesdropper.SightingsCounted | baseline_no_encryption/eavesdropper.py:68-72 | From any starting map, an id is tracked after a run iff it was tracked before or some packet decoded to it, and its sightings grow by exactly the number of packets that decode to it. |
| BaselineEavesdropper.SightingsFromEmpty | baseline_no_encryption/eavesdropper.py:112 | From the empty map the program starts with, an id is tracked iff some packet decoded to it, and it has one sighting per such packet. |
| Aead.ToyOracleIsSound | simulation_encrypted/sensor_encrypted.py:42-47 | The length and correctness axioms assumed of `ascon_encrypt`/`ascon_decrypt` are satisfiable. |
| SecureSensor.CreateEncryptedPacket | simulation_encrypted/sensor_encrypted.py:37-55 | The frame is preamble, sync and nonce (bytes 10..26, also returned), then the AEAD output under empty associated data. It is 47 bytes under the length axiom, and it opens to the baseline frame's payload bytes 10..15. |
| SecureEcu.DecryptAndVerify | simulation_encrypted/ecu_encrpyted.py:30-72 | Exactly one of `(decoded, error)` is present, and a result is always authenticated. Each error holds iff the earlier checks passed and its own failed, in the order "No sync word", "Packet too short" (fewer than 37 bytes after sync), "Authentication failed", "Invalid plaintext length". A framed packet whose decryption gives 5 bytes is accepted, and the reading holds the fields parsed from that plaintext. |
| SecureEcu.SealedFrameLayout | simulation_encrypted/ecu_encrpyted.py:35-43 | In a sensor-built frame, the receiver's nonce and sealed slices are exactly the sensor's nonce and AEAD output. |
| SecureEcu.RoundTrip | simulation_encrypted/ecu_encrpyted.py:30-72 | Under the axioms, the sensor's frame decodes under the same key to its id, flags and raw pressure byte. |
| SecureEcu.AcceptsAnyAuthenticPayload | simulation_encrypted/ecu_encrpyted.py:56-72 | There is no sensor-id check: any authenticated 5-byte plaintext is accepted with whatever id it carries. |
| SecureEcu.WrongKeyRejected | simulation_encrypted/ecu_encrpyted.py:46-54 | A frame whose decryption fails under the receiver's key gets "Authentication failed". |
| SecureEcu.TrailingBytesIgnored | simulation_encrypted/ecu_encrpyted.py:41-43 | Only the 37 bytes after the first sync are used: appended bytes do not change the verdict. |
| SecureEcu.CountPacket | simulation_encrypted/ecu_encrpyted.py:111-123 | An empty datagram is not counted. Any other raises `packet_count` and exactly one of the authenticated and rejected counters, and the step preserves `packets = authenticated + rejected`. |
| SecureEcu.CountAllBalanced | simulation_encrypted/ecu_encrpyted.py:107-123 | From zero, after any run, `packet_count = authenticated_count + rejected_count`, and `packet_count` is the number of non-empty datagrams. |
| TpmsFunctions.TireConfigIdsFit | functions.py:13-18 | Every configured sensor id fits in 24 bits. |
| TpmsFunctions.LoadSensorKey | functions.py:21-36 | An unknown id fails as unknown, and a configured id without a key file fails as missing. Otherwise the result is the key from that id's file. |
| TpmsFunctions.EncryptTpmsPacket | functions.py:59-91 | Fails exactly when the key lookup fails, with the same error. Otherwise it is the encrypting sensor's frame under that sensor's key: 47 bytes under the length axiom. |
| TpmsFunctions.TrialFrom | functions.py:125-152 | Returns the first entry from `from` onward whose key authenticates a 5-byte plaintext naming that entry's id, or `None` exactly when no such entry exists. |
| TpmsFunctions.TrialFromFirst | functions.py:125-139 | The scan stops at the first accepting entry. |
| TpmsFunctions.TrialDecrypt | functions.py:124-152 | Over the whole store: `None` iff no entry accepts, and otherwise the least accepting index. |
| TpmsFunctions.ReportFor | functions.py:140-150 | A result carries `authenticated = True`, the entry's position and a six-digit id. |
| TpmsFunctions.DecryptTpmsPacket | functions.py:94-154 | `None` when there is no sync, when fewer than 37 bytes follow the first sync, or when the key store is missing. Any result is authenticated. |
| TpmsFunctions.DecryptCharacterized | functions.py:125-154 | A packet decrypts iff some stored key accepts. The result is then the report of the first accepting entry in the store's order, named by that entry's id. |
| TpmsFunctions.MismatchedIdSkipped | functions.py:134-139 | A key that authenticates but decodes to another id is skipped, and the result is that of the remaining store. |
| TpmsFunctions.TrialShift | functions.py:125-139 | Putting a non-accepting key first shifts the first acceptor by one and changes nothing else. |
| TpmsFunctions.SoleAcceptor | functions.py:125-150 | When exactly one entry accepts, the result is that entry's report, wherever it sits in the iteration order. |
| TpmsFunctions.DecryptSealedFrame | functions.py:106-150 | A sealed frame whose first accepting entry is `k` yields entry `k`'s id and position with the plaintext's flags and pressure. |
| TpmsFunctions.RoundTrip | functions.py:59-150 | If entry `k` holds the sensor's id and key, and every earlier key fails to authenticate, decrypting the encrypted packet returns that id, flags and raw pressure byte. |
| Receiver.Candidate | RF_Simulation_RX.py:47-48 | The candidate is the sync word followed by the 37-byte window. |
| Receiver.CandidateLayout | RF_Simulation_RX.py:47-51 | In a candidate, sync is found at 0, the nonce is the window's first 16 bytes and the sealed part is its last 21. |
| Receiver.CandidateDecrypts | RF_Simulation_RX.py:48-51 | A window decrypts iff the trial decoder accepts its first 16 bytes as nonce and its last 21 as ciphertext. |
| Receiver.ScanFrom | RF_Simulation_RX.py:46-53 | A found offset is at or after `from`, its 37-byte window fits in the buffer, and the report returned is the decoder's result for that window. |
| Receiver.ScanFromFirst | RF_Simulation_RX.py:46-53 | The scan skips nothing. It finds nothing only when no window from `from` on decodes, and every window before the one it finds fails to decode. |
| Receiver.ScanBuffer | RF_Simulation_RX.py:43-47 | Offsets `0..len − 37` are tried in ascending order, buffers shorter than 37 bytes try nothing, and the result is the first decrypting window. |
| Receiver.Dedup | RF_Simulation_RX.py:55-69 | A report is suppressed iff its signature equals the last emitted one and less than 2.0 s has passed. A suppressed report leaves the state unchanged; an emitted one records its signature and time. |
| Receiver.RepeatsEveryOneAndAHalf | RF_Simulation_RX.py:59-69 | Identical reports every 1.5 s are emitted at `t` and `t + 3.0` only, because suppression does not refresh the window. |
| Receiver.WindowBoundary | RF_Simulation_RX.py:59-60 | A repeat after 1.0 s is suppressed, and a repeat after 2.5 s is emitted. |
| Receiver.InterleavedReportResets | RF_Simulation_RX.py:34-35 | Only the last signature is kept, so after a different report the old one is emitted again however soon it recurs. |
| Receiver.ReceiveBuffer | RF_Simulation_RX.py:53-74 | A buffer with no decrypting window changes nothing. Otherwise the first decrypting window's report goes through the filter: it is emitted exactly when it is not a duplicate of the last report within 2.0 s, and the state becomes the filter's new state. |
| Receiver.StopsAtFirstDecrypt | RF_Simulation_RX.py:73-74 | Once a window decrypts, bytes after the buffer cannot change the outcome, even when that report is suppressed as a duplicate. |
| Eavesdropper.AttemptDecodeBaseline | eavesdropper.py:18-37 | `None` iff fewer than 7 bytes follow the sync. Otherwise the result is the id, flags and raw pressure in clear, with `tracking_possible = True`. |
| Eavesdropper.AttemptDecodeEncrypted | eavesdropper.py:40-53 | `None` iff fewer than 37 bytes follow the sync. Otherwise only the nonce is exposed, as 32 lower-case hex digits, with `tracking_possible = False`. |
| Eavesdropper.Classify | eavesdropper.py:57-69 | Classifies by the bytes remaining after the first sync: 37 or more is encrypted, 7 to 36 is baseline, and fewer (or no sync) is nothing. |
| Eavesdropper.AnalyzePacket | eavesdropper.py:56-93 | An encrypted packet yields exactly `attempt_decode_encrypted`'s result (the nonce in hex, no tracking) and leaves the map unchanged. A baseline packet yields exactly `attempt_decode_baseline`'s result. A baseline result appends one sighting under its id and creates the entry if absent; other ids are unchanged. No result changes nothing. |
| Eavesdropper.HelpersNeverFail | eavesdropper.py:64-67 | Under the dispatch's bounds the helpers' own length guards never return `None`. |
| Eavesdropper.BaselineTrackedById | eavesdropper.py:76-86 | A baseline packet is recorded under the six-digit id read from its payload, and that id's list grows by one. |
| Eavesdropper.FrameSizesClassify | eavesdropper.py:61-67 | A 5+2-byte body after preamble and sync is baseline, and a 16+21-byte body is encrypted. |
| Eavesdropper.SensorFramesClassify | eavesdropper.py:64-67 | The baseline sensor's 17-byte frame is classified baseline. The encrypting sensor's frame is classified encrypted under the length axiom. |
| Benchmark.CreateBinaryPacket | performance_analysis/performance_benchmark.py:38-50 | The benchmark's frame is 17 bytes, the `packet_size` it records. |
| Benchmark.SameAsSensor | performance_analysis/performance_benchmark.py:38-59 | The benchmark's copy builds exactly the baseline sensor's frame, and its bytes 10..15 are the plaintext payload. |
| Benchmark.CreateEncryptedPacket | performance_analysis/performance_benchmark.py:62-77 | Returns the encrypting sensor's frame and its nonce at bytes 10..26. The frame is 47 bytes under the length axiom, the recorded `packet_size`. |
| Benchmark.BenchmarkPayload | performance_analysis/performance_benchmark.py:11-13 | The benchmarked reading (id 0xA0A6F9, 37.5 psi, flags 5) encodes as `A0 A6 F9 05 67`. |
| RfModem.BitStringRoundTrip | SDR/RFModem.py:30 | A value below `2^n`, written as `n` bits MSB first, reads back as itself. |
| RfModem.AccessCodeIsSyncWord | SDR/RFModem.py:29-30 | `ACCESS_CODE` is `SYNC_WORD` written MSB first, and its two halves read back as `2D` and `D4`. |
| RfModem.LengthHeader | SDR/RFModem.py:184-185 | The header is 4 bytes, the two copies are equal, and each reads back as the payload length. |
| RfModem.TransmitFrame | SDR/RFModem.py:178-190 | Rejected exactly when the payload exceeds 65535 bytes. Otherwise the frame is 100 × `0x55`, then sync, then the header, then the data: `106 + n` bytes. |
| RfModem.HeaderRecoversData | SDR/RFModem.py:51 | Either header copy of a transmitted frame gives the data length, and that many bytes after the header are the data. |

## Left out

- Sockets, broadcast, UDP receive loops, printing, log-file writes, `time.sleep` and `datetime.now()`. Timestamps and clock readings are parameters.
- Key-file loading and JSON parsing (`load_all_sensor_keys`, the ECU's default-key fallback, the sensor's key file). Keys, the key-file map and the key store are inputs. JSON errors other than a missing file are not modelled.
- Randomness. `secrets.token_bytes(16)` and the random pressure jitter are parameters.
- Payload.Quantize: the rounding of the float product `pressure_psi * 2.755` is not modelled. The model truncates the exact rational product, so near an integer product the byte can differ by one from the source's. For example, for the double nearest 1.8148820326678765 the source gets 5, while the exact product is just below 5 and gives 4.
- Floating point. The model keeps the raw pressure byte in place of `round(raw / 2.755, 3)`, and does not model low-pressure warnings or the energy and battery estimates of the benchmark.
- Ascon-128 internals. The oracle is constrained only by the length and correctness axioms. Wrong-key failure appears only as a lemma hypothesis.
- The 16-byte Ascon-128 key length. Keys are arbitrary byte strings in the model. The source never checks a key's length itself, and the oracle is total, so a wrongly sized key is not modelled as an error.
- Exceptions raised inside `ascon_decrypt` are folded into a `None` result. This matches the `except Exception: continue` of `functions.py`.
- SecureEcu.DecryptAndVerify: an exception inside `ascon_decrypt` is not modelled. In `simulation_encrypted/ecu_encrpyted.py` the call at line 46 has no handler, and `run_ecu` catches only `KeyboardInterrupt` (line 125), so such an exception ends the ECU. The model reports "Authentication failed" instead, and `SecureEcu.CountPacket` counts a rejection. The oracle is a total function, so it cannot raise.
- `struct.pack('>I')` raising on ids outside 32 bits. The sensor builders take ids below 2^32 (`uint32`).
- GNU Radio, SoapySDR and Qt flowgraphs: the `Transmitter`/`Receiver` classes apart from the frame assembly, `receive_data`, `SDR/TX_Runner/run_tx.py` and `SDR/end2end_test/end2end.py`.
- `RF_Simulation_TX.py`, which is a loop calling `transmit_data`.
- `simulation_encrypted/pairing.py`, which is key agreement and key derivation done by an external library, plus file writes.
- The receiver's `except Exception: pass` around one window. The modelled decoder cannot raise, so an exception is represented by a `None` result, and the scan moves on to the next window.
