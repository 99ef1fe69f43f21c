/** The metadata section: where each block starts and which keys it spans. */
module BlockMetas {
  import opened Keys
  import opened Versions
  import opened Bytes
  import opened Blocks

  datatype Meta = Meta(offset: nat, first: Key, last: Key)

  predicate MetaFits(m: Meta) {
    m.offset < U32 && |m.first| < U16 && |m.last| < U16
  }

  /** A length-prefixed string with a 16-bit length. */
  function EncodeText(k: Key): (s: seq<byte>)
    ensures |s| == 2 + |k| % U16
  {
    ToBytes(|k| % U16, 2) + k[..|k| % U16]
  }

  function EncodeMeta(m: Meta): (s: seq<byte>) {
    ToBytes(m.offset, 4) + EncodeText(m.first) + EncodeText(m.last)
  }

  function EncodeEach(ms: seq<Meta>): seq<byte> {
    if ms == [] then [] else EncodeEach(ms[..|ms| - 1]) + EncodeMeta(ms[|ms| - 1])
  }

  /** Room that over-long keys were given but did not use. */
  function Slack(ms: seq<Meta>): nat {
    if ms == [] then 0
    else
      var m := ms[|ms| - 1];
      Slack(ms[..|ms| - 1]) + (|m.first| - |m.first| % U16) + (|m.last| - |m.last| % U16)
  }

  /** How many entries, the entries, their checksum. */
  function EncodeMetas(ms: seq<Meta>, hash: seq<byte> -> nat): seq<byte> {
    ToBytes(|ms|, 4) + EncodeEach(ms) + ToBytes(Checksum(hash, EncodeEach(ms)), 4) + Zeros(Slack(ms))
  }

  /** The loop that writes the entries one after another. */
  method EncodeMetaToSlice(ms: seq<Meta>, hash: seq<byte> -> nat) returns (s: seq<byte>)
    ensures s == EncodeMetas(ms, hash)
  {
    var body, slack := [], 0;
    for i := 0 to |ms|
      invariant body == EncodeEach(ms[..i]) && slack == Slack(ms[..i])
    {
      assert ms[..i + 1][..i] == ms[..i];
      body := body + EncodeMeta(ms[i]);
      slack := slack + (|ms[i].first| - |ms[i].first| % U16) + (|ms[i].last| - |ms[i].last| % U16);
    }
    assert ms[..|ms|] == ms;
    s := ToBytes(|ms|, 4) + body + ToBytes(Checksum(hash, body), 4) + Zeros(slack);
  }

  // ------------------------------------------------------------ decoding

  /** The text at position at and the position behind it, unless it would leave the buffer. */
  function ParseText(s: seq<byte>, at: nat): Option<(Key, nat)> {
    if at + 2 > |s| then None
    else
      var n := Get16(s, at);
      if at + 2 + n > |s| then None else Some((s[at + 2..at + 2 + n], at + 2 + n))
  }

  function ParseMeta(s: seq<byte>, at: nat): Option<(Meta, nat)> {
    if at + 4 > |s| then None
    else
      var first := ParseText(s, at + 4);
      if first.None? then None
      else
        var last := ParseText(s, first.value.1);
        if last.None? then None
        else Some((Meta(FromBytes(s[at..at + 4]), first.value.0, last.value.0), last.value.1))
  }

  /** Reads entries until there are n of them. */
  function ParseMetas(s: seq<byte>, at: nat, n: nat): Option<(seq<Meta>, nat)> {
    if n == 0 then Some(([], at))
    else
      var front := ParseMetas(s, at, n - 1);
      if front.None? then None
      else
        var m := ParseMeta(s, front.value.1);
        if m.None? then None else Some((front.value.0 + [m.value.0], m.value.1))
  }

  function DecodeMetas(s: seq<byte>, hash: seq<byte> -> nat): Result<seq<Meta>> {
    if |s| < 8 then Err("Invalid metadata size")
    else
      var p := ParseMetas(s, 4, FromBytes(s[..4]));
      if p.None? || p.value.1 + 4 > |s| then Err("read outside the buffer")
      else
        var (ms, end) := p.value;
        if end < 4 || FromBytes(s[end..end + 4]) != Checksum(hash, s[4..end]) then Err("Metadata hash mismatch")
        else Ok(ms)
  }

  /** The loop that reads the entries one after another. */
  method DecodeMetaFromSlice(s: seq<byte>, hash: seq<byte> -> nat) returns (r: Result<seq<Meta>>)
    ensures r == DecodeMetas(s, hash)
  {
    if |s| < 8 {
      return Err("Invalid metadata size");
    }
    var n := FromBytes(s[..4]);
    var ms, at := [], 4;
    for i := 0 to n
      invariant ParseMetas(s, 4, i) == Some((ms, at)) && at >= 4
    {
      var m := ParseMeta(s, at);
      if m.None? {
        ParseStuck(s, 4, i + 1, n);
        return Err("read outside the buffer");
      }
      ms, at := ms + [m.value.0], m.value.1;
    }
    if at + 4 > |s| {
      return Err("read outside the buffer");
    }
    if FromBytes(s[at..at + 4]) != Checksum(hash, s[4..at]) {
      return Err("Metadata hash mismatch");
    }
    return Ok(ms);
  }

  /** Once an entry cannot be read, no longer list can. */
  lemma {:induction false} ParseStuck(s: seq<byte>, at: nat, i: nat, n: nat)
    requires i <= n && ParseMetas(s, at, i).None?
    ensures ParseMetas(s, at, n).None?
  {
    if i < n {
      ParseStuck(s, at, i, n - 1);
    }
  }

  lemma TextRoundTrip(s: seq<byte>, at: nat, k: Key)
    requires |k| < U16 && at + 2 + |k| <= |s| && s[at..at + 2 + |k|] == EncodeText(k)
    ensures ParseText(s, at) == Some((k, at + 2 + |k|))
  {
    hide ToBytes, FromBytes, Pow256;
    Widths();
    ReadBackFits(|k|, 2);
    var e := EncodeText(k);
    assert e[0..2] == ToBytes(|k|, 2) && e[2..2 + |k|] == k;
    Within(s, at, e, 0, 2);
    Within(s, at, e, 2, 2 + |k|);
  }

  lemma MetaRoundTrip(s: seq<byte>, at: nat, m: Meta)
    requires MetaFits(m) && at + |EncodeMeta(m)| <= |s| && s[at..at + |EncodeMeta(m)|] == EncodeMeta(m)
    ensures ParseMeta(s, at) == Some((m, at + |EncodeMeta(m)|))
  {
    hide ToBytes, FromBytes, Pow256, EncodeText, ParseText;
    Widths();
    ReadBackFits(m.offset, 4);
    var e, o, f, l := EncodeMeta(m), ToBytes(m.offset, 4), EncodeText(m.first), EncodeText(m.last);
    var i := 4 + |f|;
    assert e == o + f + l;
    assert e[0..4] == o && e[4..i] == f && e[i..|e|] == l;
    Within(s, at, e, 0, 4);
    Within(s, at, e, 4, i);
    Within(s, at, e, i, |e|);
    TextRoundTrip(s, at + 4, m.first);
    TextRoundTrip(s, at + i, m.last);
  }

  lemma {:induction false} EachRoundTrip(s: seq<byte>, at: nat, ms: seq<Meta>)
    requires forall i :: 0 <= i < |ms| ==> MetaFits(ms[i])
    requires at + |EncodeEach(ms)| <= |s| && s[at..at + |EncodeEach(ms)|] == EncodeEach(ms)
    ensures ParseMetas(s, at, |ms|) == Some((ms, at + |EncodeEach(ms)|))
  {
    hide EncodeMeta, ParseMeta;
    if ms != [] {
      var front, m := ms[..|ms| - 1], ms[|ms| - 1];
      var e, f, g := EncodeEach(ms), EncodeEach(front), EncodeMeta(m);
      assert e == f + g && e[0..|f|] == f && e[|f|..|e|] == g;
      Within(s, at, e, 0, |f|);
      Within(s, at, e, |f|, |e|);
      EachRoundTrip(s, at, front);
      MetaRoundTrip(s, at + |f|, m);
      assert front + [m] == ms;
    }
  }

  /** Decoding the metadata section gives back the metadata. */
  lemma MetasRoundTrip(ms: seq<Meta>, hash: seq<byte> -> nat)
    requires |ms| < U32 && forall i :: 0 <= i < |ms| ==> MetaFits(ms[i])
    ensures DecodeMetas(EncodeMetas(ms, hash), hash) == Ok(ms)
  {
    hide ToBytes, FromBytes, Pow256, EncodeEach, ParseMetas;
    Widths();
    var s, body := EncodeMetas(ms, hash), EncodeEach(ms);
    var n, c := ToBytes(|ms|, 4), ToBytes(Checksum(hash, body), 4);
    ReadBackFits(|ms|, 4);
    ReadBackFits(Checksum(hash, body), 4);
    assert s == n + body + c + Zeros(Slack(ms));
    assert s[..4] == n && s[4..4 + |body|] == body && s[4 + |body|..4 + |body| + 4] == c;
    EachRoundTrip(s, 4, ms);
  }
}
