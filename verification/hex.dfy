/** Hexadecimal renderings of bytes used by the sensors, receivers and
    eavesdroppers for display and as tracking keys. */
module Hex {
  import opened Bytes

  const UpperDigits: string := "0123456789ABCDEF"
  const LowerDigits: string := "0123456789abcdef"

  /** `f'{b:02X}'`: two upper-case hex digits, high nibble first. */
  function Upper2(b: byte): (s: string)
    ensures |s| == 2
  {
    [UpperDigits[b / 16], UpperDigits[b % 16]]
  }

  /** `format(b, '02x')`, as used by `bytes.hex()`. */
  function Lower2(b: byte): (s: string)
    ensures |s| == 2
  {
    [LowerDigits[b / 16], LowerDigits[b % 16]]
  }

  /** The value of an upper-case hex digit; -1 for any other character. */
  function UpperDigitValue(c: char): int {
    if '0' <= c <= '9' then c as int - '0' as int
    else if 'A' <= c <= 'F' then c as int - 'A' as int + 10
    else -1
  }

  lemma UpperDigitRoundTrip(v: int)
    requires 0 <= v < 16
    ensures UpperDigitValue(UpperDigits[v]) == v
  {
  }

  /** Reading two upper-case digits back recovers the byte. */
  lemma Upper2RoundTrip(b: byte)
    ensures 16 * UpperDigitValue(Upper2(b)[0]) + UpperDigitValue(Upper2(b)[1]) == b as int
  {
    UpperDigitRoundTrip(b as int / 16);
    UpperDigitRoundTrip(b as int % 16);
  }

  lemma Upper2Injective(a: byte, b: byte)
    requires Upper2(a) == Upper2(b)
    ensures a == b
  {
    Upper2RoundTrip(a);
    Upper2RoundTrip(b);
  }

  /** The value of a lower-case hex digit; -1 for any other character. */
  function LowerDigitValue(c: char): int {
    if '0' <= c <= '9' then c as int - '0' as int
    else if 'a' <= c <= 'f' then c as int - 'a' as int + 10
    else -1
  }

  lemma LowerDigitRoundTrip(v: int)
    requires 0 <= v < 16
    ensures LowerDigitValue(LowerDigits[v]) == v
  {
  }

  /** Reading two lower-case digits back recovers the byte. */
  lemma Lower2RoundTrip(b: byte)
    ensures 16 * LowerDigitValue(Lower2(b)[0]) + LowerDigitValue(Lower2(b)[1]) == b as int
  {
    LowerDigitRoundTrip(b as int / 16);
    LowerDigitRoundTrip(b as int % 16);
  }

  /** `' '.join(f'{b:02X}' for b in packet)` (`packet_to_hex_string`). */
  function JoinHex(p: seq<byte>): (s: string)
    ensures |s| == if |p| == 0 then 0 else 3 * |p| - 1
    decreases |p|
  {
    if |p| == 0 then ""
    else if |p| == 1 then Upper2(p[0])
    else Upper2(p[0]) + " " + JoinHex(p[1..])
  }

  /** Byte `i` of the packet sits at characters `3i` and `3i+1`, and a single
      space follows every byte but the last. */
  lemma {:induction false} JoinHexLayout(p: seq<byte>)
    ensures forall i :: 0 <= i < |p| ==> JoinHex(p)[3 * i..3 * i + 2] == Upper2(p[i])
    ensures forall i :: 0 <= i < |p| - 1 ==> JoinHex(p)[3 * i + 2] == ' '
    decreases |p|
  {
    if |p| > 1 {
      var rest := JoinHex(p[1..]);
      var s := JoinHex(p);
      assert s == Upper2(p[0]) + " " + rest;
      JoinHexLayout(p[1..]);
      forall i | 1 <= i < |p|
        ensures s[3 * i..3 * i + 2] == Upper2(p[i])
      {
        assert s[3 * i..3 * i + 2] == rest[3 * (i - 1)..3 * (i - 1) + 2];
        assert p[1..][i - 1] == p[i];
      }
      forall i | 1 <= i < |p| - 1
        ensures s[3 * i + 2] == ' '
      {
        assert s[3 * i + 2] == rest[3 * (i - 1) + 2];
      }
    }
  }

  /** `packet_to_hex` of the baseline eavesdropper: at most `maxBytes` bytes
      rendered, then `...` when the packet was longer. */
  function TruncatedHex(p: seq<byte>, maxBytes: nat): (s: string)
    ensures var n := if |p| <= maxBytes then |p| else maxBytes;
            |s| == (if n == 0 then 0 else 3 * n - 1) + (if |p| > maxBytes then 3 else 0) &&
            s[..|JoinHex(p[..n])|] == JoinHex(p[..n])
    ensures |p| <= maxBytes ==> s == JoinHex(p)
    ensures |p| > maxBytes ==> s[|s| - 3..] == "..."
  {
    var shown := if |p| <= maxBytes then p else p[..maxBytes];
    assert |p| <= maxBytes ==> shown == p[..|p|];
    JoinHex(shown) + (if |p| > maxBytes then "..." else "")
  }

  /** Each of the first `maxBytes` bytes shows as its upper-case pair at
      characters `3i` and `3i+1` of the truncated rendering. */
  lemma TruncatedHexLayout(p: seq<byte>, maxBytes: nat)
    ensures forall i :: 0 <= i < |p| && i < maxBytes ==> TruncatedHex(p, maxBytes)[3 * i..3 * i + 2] == Upper2(p[i])
  {
    var n := if |p| <= maxBytes then |p| else maxBytes;
    var shown := p[..n];
    JoinHexLayout(shown);
    var s := TruncatedHex(p, maxBytes);
    forall i | 0 <= i < |p| && i < maxBytes
      ensures s[3 * i..3 * i + 2] == Upper2(p[i])
    {
      assert s[3 * i..3 * i + 2] == JoinHex(shown)[3 * i..3 * i + 2];
      assert shown[i] == p[i];
    }
  }

  /** `bytes.hex()`: two lower-case digits per byte, no separator; character
      `k` is digit `k % 2` of byte `k / 2`. */
  function LowerHex(p: seq<byte>): (s: string)
    ensures |s| == 2 * |p|
  {
    seq(2 * |p|, k requires 0 <= k < 2 * |p| => Lower2(p[k / 2])[k % 2])
  }

  /** Each byte reads back from its two digits of the `bytes.hex()` text. */
  lemma LowerHexValue(p: seq<byte>)
    ensures forall i :: 0 <= i < |p| ==>
              16 * LowerDigitValue(LowerHex(p)[2 * i]) + LowerDigitValue(LowerHex(p)[2 * i + 1]) == p[i] as int
  {
    var s := LowerHex(p);
    forall i | 0 <= i < |p|
      ensures 16 * LowerDigitValue(s[2 * i]) + LowerDigitValue(s[2 * i + 1]) == p[i] as int
    {
      assert s[2 * i] == Lower2(p[i])[0] && s[2 * i + 1] == Lower2(p[i])[1];
      Lower2RoundTrip(p[i]);
    }
  }

  /** Distinct byte strings have distinct `bytes.hex()` texts. */
  lemma LowerHexInjective(p: seq<byte>, q: seq<byte>)
    requires LowerHex(p) == LowerHex(q)
    ensures p == q
  {
    LowerHexValue(p);
    LowerHexValue(q);
    assert |p| == |q|;
    forall i | 0 <= i < |p|
      ensures p[i] == q[i]
    {
      assert LowerHex(p)[2 * i] == LowerHex(q)[2 * i];
      assert LowerHex(p)[2 * i + 1] == LowerHex(q)[2 * i + 1];
    }
  }

  /** `f"{sensor_id:06X}"` for a 24-bit id: six upper-case digits. */
  function IdHex(id: nat): (s: string)
    requires id < 0x100_0000
    ensures |s| == 6
  {
    Upper2((id / 0x1_0000) as byte) + Upper2((id / 0x100 % 0x100) as byte) + Upper2((id % 0x100) as byte)
  }

  /** The six digits read back, most significant first, as the id. */
  lemma IdHexValue(id: nat)
    requires id < 0x100_0000
    ensures var s := IdHex(id);
            0x10_0000 * UpperDigitValue(s[0]) + 0x1_0000 * UpperDigitValue(s[1]) +
            0x1000 * UpperDigitValue(s[2]) + 0x100 * UpperDigitValue(s[3]) +
            0x10 * UpperDigitValue(s[4]) + UpperDigitValue(s[5]) == id
  {
    var hi, mid, lo := (id / 0x1_0000) as byte, (id / 0x100 % 0x100) as byte, (id % 0x100) as byte;
    var s := IdHex(id);
    assert s[0..2] == Upper2(hi) && s[2..4] == Upper2(mid) && s[4..6] == Upper2(lo);
    Upper2RoundTrip(hi);
    Upper2RoundTrip(mid);
    Upper2RoundTrip(lo);
    ThreeByteDigits(id);
  }

  /** A 24-bit value is its three base-256 digits, most significant first. */
  lemma ThreeByteDigits(id: nat)
    requires id < 0x100_0000
    ensures 0x1_0000 * (id / 0x1_0000) + 0x100 * (id / 0x100 % 0x100) + id % 0x100 == id
  {
    assert id == 0x100 * (id / 0x100) + id % 0x100;
    assert id / 0x100 == 0x100 * (id / 0x1_0000) + id / 0x100 % 0x100;
  }

  /** Distinct ids never share a tracking key. */
  lemma IdHexInjective(a: nat, b: nat)
    requires a < 0x100_0000 && b < 0x100_0000
    requires IdHex(a) == IdHex(b)
    ensures a == b
  {
    var sa := IdHex(a);
    var sb := IdHex(b);
    assert sa[0..2] == sb[0..2] && sa[2..4] == sb[2..4] && sa[4..6] == sb[4..6];
    Upper2Injective((a / 0x1_0000) as byte, (b / 0x1_0000) as byte);
    Upper2Injective((a / 0x100 % 0x100) as byte, (b / 0x100 % 0x100) as byte);
    Upper2Injective((a % 0x100) as byte, (b % 0x100) as byte);
  }
}
