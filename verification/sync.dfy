/** Locating the sync word in a raw buffer (`find_sync_word`, which every
    receiver in the repository defines identically). */
module Sync {
  import opened Bytes

  /** The sync word `2D D4` starts at offset `i` of `data`. */
  predicate SyncAt(data: seq<byte>, i: int) {
    0 <= i && i + 1 < |data| && data[i] == SyncWord[0] && data[i + 1] == SyncWord[1]
  }

  /** The least offset `>= from` where the sync word starts, or -1. */
  function FindSyncFrom(data: seq<byte>, from: nat): (r: int)
    ensures r == -1 || (from <= r < |data| - 1 && SyncAt(data, r))
    ensures forall j :: from <= j < |data| && (r == -1 || j < r) ==> !SyncAt(data, j)
    decreases |data| - from
  {
    if from + 1 >= |data| then -1
    else if SyncAt(data, from) then from
    else FindSyncFrom(data, from + 1)
  }

  /** `find_sync_word`: the offset of the FIRST occurrence of the sync word,
      or -1 when there is none. Later occurrences are never reported. */
  function FindSync(data: seq<byte>): (r: int)
    ensures -1 <= r < |data| - 1 || r == -1
    ensures r == -1 <==> forall j :: 0 <= j < |data| ==> !SyncAt(data, j)
    ensures r >= 0 ==> SyncAt(data, r) && forall j :: 0 <= j < r ==> !SyncAt(data, j)
    ensures |data| < 2 ==> r == -1
  {
    FindSyncFrom(data, 0)
  }

  /** Cutting the buffer anywhere after the first sync word keeps that offset. */
  lemma FindSyncPrefix(data: seq<byte>, k: nat)
    requires FindSync(data) >= 0 && FindSync(data) + 2 <= k <= |data|
    ensures FindSync(data[..k]) == FindSync(data)
  {
    var s := FindSync(data);
    assert SyncAt(data[..k], s);
    forall j | 0 <= j < s
      ensures !SyncAt(data[..k], j)
    {
      assert !SyncAt(data, j);
    }
  }

  /** Appending bytes behind a found sync word keeps that offset. */
  lemma FindSyncExtend(data: seq<byte>, tail: seq<byte>)
    requires FindSync(data) >= 0
    ensures FindSync(data + tail) == FindSync(data)
  {
    var s := FindSync(data);
    assert SyncAt(data + tail, s);
    forall j | 0 <= j < s
      ensures !SyncAt(data + tail, j)
    {
      assert !SyncAt(data, j);
    }
  }

  /** A buffer that starts with the sync word is found at offset 0. */
  lemma FindSyncLeading(rest: seq<byte>)
    ensures FindSync(SyncWord + rest) == 0
  {
    assert SyncAt(SyncWord + rest, 0);
  }

  /** Behind the 0x55 preamble the first sync word is the framing one at offset 8:
      no occurrence can start inside the preamble. */
  lemma FindSyncAfterPreamble(rest: seq<byte>)
    ensures FindSync(Preamble + SyncWord + rest) == |Preamble|
  {
    var p := Preamble + SyncWord + rest;
    assert SyncAt(p, 8);
    forall j | 0 <= j < 8
      ensures !SyncAt(p, j)
    {
      assert p[j] == 0x55;
    }
  }
}
