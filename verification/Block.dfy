/** Data blocks: entries packed one after another, their offsets, and the searches over them. */
module Blocks {
  import opened Keys
  import opened Versions
  import opened Bytes

  const U16 := 0x1_0000
  const U32 := 0x1_0000_0000
  const U64 := 0x1_0000_0000_0000_0000

  datatype Result<+T> = Ok(value: T) | Err(error: string)

  // ------------------------------------------------------------ one entry

  function Zeros(n: nat): (s: seq<byte>)
    ensures |s| == n
  {
    seq(n, _ => 0)
  }

  /** Key length, key, value length, value, id.  Lengths are stored in 16 bits; what a longer
      key or value does not use of its room stays zero. */
  function EncodeEntry(e: Entry): (s: seq<byte>)
    ensures |s| == 12 + |e.key| + |e.value|
  {
    var kl, vl := |e.key| % U16, |e.value| % U16;
    ToBytes(kl, 2) + e.key[..kl] + ToBytes(vl, 2) + e.value[..vl] + ToBytes(e.tid, 8)
    + Zeros(|e.key| - kl + |e.value| - vl)
  }

  /** Lengths and id fit their fields. */
  predicate EntryFits(e: Entry) {
    |e.key| < U16 && |e.value| < U16 && e.tid < U64
  }

  function Get16(data: seq<byte>, at: nat): (n: nat)
    requires at + 2 <= |data|
  {
    FromBytes(data[at..at + 2])
  }

  /** An entry that starts at off lies inside the data. */
  predicate Readable(data: seq<byte>, off: nat) {
    && off + 2 <= |data|
    && var v := off + 2 + Get16(data, off);
       v + 2 <= |data| && v + 2 + Get16(data, v) + 8 <= |data|
  }

  function KeyAt(data: seq<byte>, off: nat): Key
    requires Readable(data, off)
  {
    data[off + 2..off + 2 + Get16(data, off)]
  }

  function ValueAt(data: seq<byte>, off: nat): Value
    requires Readable(data, off)
  {
    var v := off + 2 + Get16(data, off);
    data[v + 2..v + 2 + Get16(data, v)]
  }

  /** The stored 64-bit id, returned through a 16-bit type. */
  function IdAt(data: seq<byte>, off: nat): nat
    requires Readable(data, off)
  {
    var v := off + 2 + Get16(data, off);
    var t := v + 2 + Get16(data, v);
    FromBytes(data[t..t + 8]) % U16
  }

  /** The bytes of e stand at off. */
  ghost predicate EntryAt(data: seq<byte>, off: nat, e: Entry) {
    && EntryFits(e) && off + |EncodeEntry(e)| <= |data|
    && data[off..off + |EncodeEntry(e)|] == EncodeEntry(e)
  }

  /** Reading at off gives e: key and value as they were, the id modulo 2^16. */
  ghost predicate ReadsAs(data: seq<byte>, off: nat, e: Entry) {
    Readable(data, off) && KeyAt(data, off) == e.key && ValueAt(data, off) == e.value && IdAt(data, off) == e.tid % U16
  }

  lemma EntryReads(data: seq<byte>, off: nat, e: Entry)
    requires EntryAt(data, off, e)
    ensures ReadsAs(data, off, e)
  {
    EntryLengths(data, off, e);
    EntryTexts(data, off, e);
    EntryId(data, off, e);
    hide EncodeEntry, FromBytes, Get16;
  }

  lemma EntryTexts(data: seq<byte>, off: nat, e: Entry)
    requires EntryAt(data, off, e)
    ensures data[off + 2..off + 2 + |e.key|] == e.key
    ensures data[off + 4 + |e.key|..off + 4 + |e.key| + |e.value|] == e.value
  {
    EntryParts(e);
    hide EncodeEntry, ToBytes;
    var s, k, v := EncodeEntry(e), |e.key|, |e.value|;
    Within(data, off, s, 2, 2 + k);
    Within(data, off, s, 4 + k, 4 + k + v);
  }

  lemma EntryLengths(data: seq<byte>, off: nat, e: Entry)
    requires EntryAt(data, off, e)
    ensures Get16(data, off) == |e.key| && Get16(data, off + 2 + |e.key|) == |e.value| && Readable(data, off)
  {
    EntryParts(e);
    hide EncodeEntry, ToBytes, FromBytes, Pow256;
    var s, k, v := EncodeEntry(e), |e.key|, |e.value|;
    Widths();
    Within(data, off, s, 0, 2);
    ReadBackFits(k, 2);
    Within(data, off, s, 2 + k, 4 + k);
    ReadBackFits(v, 2);
  }

  lemma EntryId(data: seq<byte>, off: nat, e: Entry)
    requires EntryAt(data, off, e)
    ensures var t := off + 4 + |e.key| + |e.value|; FromBytes(data[t..t + 8]) == e.tid
  {
    EntryParts(e);
    hide EncodeEntry, ToBytes, FromBytes, Pow256;
    var s, k, v := EncodeEntry(e), |e.key|, |e.value|;
    Widths();
    Within(data, off, s, 4 + k + v, 12 + k + v);
    ReadBackFits(e.tid, 8);
  }

  lemma EntryParts(e: Entry)
    requires EntryFits(e)
    ensures var s, k, v := EncodeEntry(e), |e.key|, |e.value|;
      && s[0..2] == ToBytes(k, 2) && s[2..2 + k] == e.key && s[2 + k..4 + k] == ToBytes(v, 2)
      && s[4 + k..4 + k + v] == e.value && s[4 + k + v..12 + k + v] == ToBytes(e.tid, 8)
  {
    hide ToBytes;
    var k, v, t := ToBytes(|e.key|, 2), ToBytes(|e.value|, 2), ToBytes(e.tid, 8);
    assert EncodeEntry(e) == k + e.key + v + e.value + t;
    FiveParts(k, e.key, v, e.value, t);
  }

  lemma FiveParts(a: seq<byte>, b: seq<byte>, c: seq<byte>, d: seq<byte>, t: seq<byte>)
    ensures var s, i, j := a + b + c + d + t, |a| + |b|, |a| + |b| + |c|;
      && s[0..|a|] == a && s[|a|..i] == b && s[i..j] == c
      && s[j..j + |d|] == d && s[j + |d|..j + |d| + |t|] == t
  {
  }

  // ------------------------------------------------------------ a block

  /** The data section of a block that holds es. */
  function EncodeAll(es: seq<Entry>): seq<byte> {
    if es == [] then [] else EncodeAll(es[..|es| - 1]) + EncodeEntry(es[|es| - 1])
  }

  function DataSize(es: seq<Entry>): nat {
    |EncodeAll(es)|
  }

  /** Every entry starts where 16 bits can point, so every offset is exact. */
  ghost predicate BlockFits(es: seq<Entry>) {
    && |es| < U16
    && forall i :: 0 <= i < |es| ==> EntryFits(es[i]) && DataSize(es[..i]) < U16
  }

  /** Offsets and data give back es, entry by entry. */
  ghost predicate Holds(data: seq<byte>, offsets: seq<nat>, es: seq<Entry>) {
    |offsets| == |es| && forall i :: 0 <= i < |es| ==> EntryAt(data, offsets[i], es[i])
  }

  /** Every offset reads as its entry. */
  ghost predicate ReadsBack(data: seq<byte>, offsets: seq<nat>, es: seq<Entry>) {
    |offsets| == |es| && forall i :: 0 <= i < |es| ==> ReadsAs(data, offsets[i], es[i])
  }

  lemma HoldsReads(data: seq<byte>, offsets: seq<nat>, es: seq<Entry>)
    requires Holds(data, offsets, es)
    ensures ReadsBack(data, offsets, es)
  {
    forall i | 0 <= i < |es|
      ensures ReadsAs(data, offsets[i], es[i])
    {
      EntryReads(data, offsets[i], es[i]);
    }
  }

  lemma HoldsAppend(data: seq<byte>, offsets: seq<nat>, es: seq<Entry>, e: Entry)
    requires Holds(data, offsets, es) && EntryFits(e) && |data| < U16
    ensures Holds(data + EncodeEntry(e), offsets + [|data| % U16], es + [e])
  {
    hide EncodeEntry;
    var d, o, s := data + EncodeEntry(e), offsets + [|data| % U16], es + [e];
    forall i | 0 <= i < |s|
      ensures EntryAt(d, o[i], s[i])
    {
      var n := |EncodeEntry(s[i])|;
      if i < |es| {
        assert EntryAt(data, offsets[i], es[i]);
        assert d[o[i]..o[i] + n] == data[o[i]..o[i] + n];
      } else {
        assert d[|data|..|data| + n] == EncodeEntry(e);
      }
    }
  }

  // ------------------------------------------------------------ encoding of a block

  function EncodeOffsets(offsets: seq<nat>): (s: seq<byte>)
    ensures |s| == 2 * |offsets|
  {
    if offsets == [] then [] else ToBytes(offsets[0], 2) + EncodeOffsets(offsets[1..])
  }

  function DecodeOffsets(s: seq<byte>): (offsets: seq<nat>)
    requires |s| % 2 == 0
    ensures |offsets| == |s| / 2
  {
    if s == [] then [] else [FromBytes(s[..2])] + DecodeOffsets(s[2..])
  }

  lemma {:induction false} OffsetsRoundTrip(offsets: seq<nat>)
    requires forall i :: 0 <= i < |offsets| ==> offsets[i] < U16
    ensures DecodeOffsets(EncodeOffsets(offsets)) == offsets
  {
    if offsets != [] {
      OffsetsRoundTrip(offsets[1..]);
      Widths();
      ReadBackFits(offsets[0], 2);
      var s := EncodeOffsets(offsets);
      assert s[..2] == ToBytes(offsets[0], 2) && s[2..] == EncodeOffsets(offsets[1..]);
    }
  }

  /** Data section, offsets, and how many there are. */
  function EncodeBlock(data: seq<byte>, offsets: seq<nat>): (s: seq<byte>)
    ensures |s| == |data| + 2 * |offsets| + 2
  {
    data + EncodeOffsets(offsets) + ToBytes(|offsets|, 2)
  }

  /** The 32-bit checksum kept behind a block or a metadata section. */
  function Checksum(hash: seq<byte> -> nat, s: seq<byte>): nat {
    hash(s) % U32
  }

  /** Splits the bytes of a block, with or without a trailing checksum, into data and offsets. */
  function DecodeBlock(s: seq<byte>, withHash: bool, hash: seq<byte> -> nat): Result<(seq<byte>, seq<nat>)> {
    var body := if withHash then |s| - 4 else |s|;
    if |s| < 2 then Err("Encoded data too small")
    else if body < 2 then Err("read outside the buffer")
    else if withHash && FromBytes(s[body..]) != Checksum(hash, s[..body]) then Err("Block hash verification failed")
    else
      var n := Get16(s, body - 2);
      if |s| < 2 + 2 * n then Err("Invalid encoded data size")
      else if body - 2 < 2 * n then Err("read outside the buffer")
      else Ok((s[..body - 2 - 2 * n], DecodeOffsets(s[body - 2 - 2 * n..body - 2])))
  }

  /** Decoding undoes encoding. */
  lemma BlockRoundTrip(data: seq<byte>, offsets: seq<nat>, hash: seq<byte> -> nat)
    requires |offsets| < U16 && forall i :: 0 <= i < |offsets| ==> offsets[i] < U16
    ensures DecodeBlock(EncodeBlock(data, offsets), false, hash) == Ok((data, offsets))
    ensures var s := EncodeBlock(data, offsets);
      DecodeBlock(s + ToBytes(Checksum(hash, s), 4), true, hash) == Ok((data, offsets))
  {
    hide ToBytes, FromBytes, EncodeOffsets, DecodeOffsets, Pow256;
    var s := EncodeBlock(data, offsets);
    var o, n, c := EncodeOffsets(offsets), ToBytes(|offsets|, 2), ToBytes(Checksum(hash, s), 4);
    Widths();
    OffsetsRoundTrip(offsets);
    ReadBackFits(|offsets|, 2);
    ReadBackFits(Checksum(hash, s), 4);
    assert s[..|data|] == data;
    assert s[|data|..|data| + |o|] == o by {
      Middle(data, o, n);
    }
    assert s[|s| - 2..|s| - 2 + 2] == n;
    var h := s + c;
    assert h[|s|..] == c && h[..|s|] == s;
    assert h[|s| - 2..|s| - 2 + 2] == n && h[..|data|] == data && h[|data|..|data| + |o|] == s[|data|..|data| + |o|];
  }
}
