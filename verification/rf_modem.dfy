/** The framing of the software-defined-radio transmitter (`SDR/RFModem.py`):
    a long preamble, the sync word, a doubled 16-bit length header, then the
    data. The radio flowgraphs themselves are not part of this model. */
module RfModem {
  import opened Wrappers
  import opened Bytes

  /** The largest payload the 2-byte length field can describe. */
  const MaxPayload: nat := 65535

  /** The transmitter's preamble: one hundred `0x55` bytes. */
  const ModemPreamble: seq<byte> := Repeat(0x55, 100)

  /** The receiver's correlator pattern, written as a bit string. */
  const AccessCode: string := "0010110111010100"

  /** Preamble, sync word and both header copies. */
  const FrameOverhead: nat := 106

  /** The low `n` bits of `v`, most significant first, as '0'/'1' characters. */
  function BitString(v: nat, n: nat): (s: string)
    ensures |s| == n
    ensures forall i :: 0 <= i < n ==> s[i] == '0' || s[i] == '1'
    decreases n
  {
    if n == 0 then "" else BitString(v / 2, n - 1) + [if v % 2 == 1 then '1' else '0']
  }

  /** The value of a bit string read most significant bit first. */
  function BitValue(s: string): nat
    decreases |s|
  {
    if |s| == 0 then 0 else 2 * BitValue(s[..|s| - 1]) + (if s[|s| - 1] == '1' then 1 else 0)
  }

  /** Powers of two, for bounding bit strings. */
  function Pow2(n: nat): (r: nat)
    ensures r >= 1
  {
    if n == 0 then 1 else 2 * Pow2(n - 1)
  }

  /** Reading a bit string back yields the value it was written from. */
  lemma {:induction false} BitStringRoundTrip(v: nat, n: nat)
    requires v < Pow2(n)
    ensures BitValue(BitString(v, n)) == v
    decreases n
  {
    if n > 0 {
      BitStringRoundTrip(v / 2, n - 1);
      var s := BitString(v, n);
      assert s[..|s| - 1] == BitString(v / 2, n - 1);
    }
  }

  /** The bytes of `data` as one bit string, each byte most significant bit first. */
  function Bits(data: seq<byte>): (s: string)
    ensures |s| == 8 * |data|
  {
    if |data| == 0 then "" else BitString(data[0] as nat, 8) + Bits(data[1..])
  }

  /** `ACCESS_CODE` is `SYNC_WORD` written out bit by bit. */
  lemma AccessCodeIsSyncWord()
    ensures Bits(SyncWord) == AccessCode
    ensures BitValue(AccessCode[..8]) == SyncWord[0] as int && BitValue(AccessCode[8..]) == SyncWord[1] as int
  {
    assert BitString(0x2D, 8) == "00101101";
    assert BitString(0xD4, 8) == "11010100";
    assert Bits(SyncWord[1..]) == "11010100";
    assert AccessCode[..8] == BitString(0x2D, 8);
    assert AccessCode[8..] == BitString(0xD4, 8);
    BitStringRoundTrip(0x2D, 8);
    BitStringRoundTrip(0xD4, 8);
  }

  /** The dynamic header of `transmit_data`: the length, two bytes big-endian,
      sent twice. */
  function LengthHeader(n: nat): (h: seq<byte>)
    requires n <= MaxPayload
    ensures |h| == 4 && h[..2] == h[2..]
    ensures UnpackU16(h[..2]) == n
  {
    UnpackPackU16(n);
    var len := PackU16(n);
    assert (len + len)[..2] == len && (len + len)[2..] == len;
    len + len
  }

  /** `transmit_data` followed by the frame assembly of the transmitter:
      the bytes put on the air, or `None` when the data is too long to
      describe in the header. */
  function TransmitFrame(data: seq<byte>): (r: Option<seq<byte>>)
    ensures r.None? <==> |data| > MaxPayload
    ensures r.Some? ==>
              |r.value| == FrameOverhead + |data| &&
              r.value[..100] == ModemPreamble && r.value[100..102] == SyncWord &&
              r.value[102..106] == LengthHeader(|data|) && r.value[106..] == data
  {
    if |data| > MaxPayload then None
    else Some(ModemPreamble + SyncWord + LengthHeader(|data|) + data)
  }

  /** A receiver reading either header copy of a transmitted frame recovers
      the data length, and with it the data. */
  lemma HeaderRecoversData(data: seq<byte>)
    requires |data| <= MaxPayload
    ensures var frame := TransmitFrame(data).value;
            UnpackU16(frame[102..104]) == |data| && UnpackU16(frame[104..106]) == |data| &&
            frame[FrameOverhead..FrameOverhead + UnpackU16(frame[102..104])] == data
  {
    var frame := TransmitFrame(data).value;
    var h := LengthHeader(|data|);
    assert frame[102..104] == h[..2];
    assert frame[104..106] == h[2..];
  }
}
