/** Log records and their encoding. */
module Records {
  import opened Keys
  import opened Versions
  import opened Bytes
  import opened Blocks
  import opened BlockMetas

  /** The kinds of record, in the order of their type byte; other bytes decode to Unknown. */
  datatype Record =
    | Create(tid: nat)
    | Commit(tid: nat)
    | Rollback(tid: nat)
    | Put(tid: nat, key: Key, value: Value)
    | Delete(tid: nat, key: Key)
    | Unknown(tid: nat, op: byte)

  function TypeByte(r: Record): byte {
    match r
    case Create(_) => 0
    case Commit(_) => 1
    case Rollback(_) => 2
    case Put(_, _, _) => 3
    case Delete(_, _) => 4
    case Unknown(_, op) => op
  }

  /** Bytes of the encoded record, including the length field. */
  function RecordLen(r: Record): nat {
    match r
    case Put(_, k, v) => 15 + |k| + |v|
    case Delete(_, k) => 13 + |k|
    case _ => 11
  }

  /** The length field and the id can be represented, and the kind is one that is written. */
  predicate RecordFits(r: Record) {
    RecordLen(r) < U16 && r.tid < U64 && !r.Unknown?
  }

  function Payload(r: Record): seq<byte> {
    match r
    case Put(_, k, v) => EncodeText(k) + EncodeText(v)
    case Delete(_, k) => EncodeText(k)
    case _ => []
  }

  function EncodeRecord(r: Record): (s: seq<byte>)
    ensures RecordFits(r) ==> |s| == RecordLen(r)
  {
    ToBytes(RecordLen(r), 2) + ToBytes(r.tid, 8) + [TypeByte(r)] + Payload(r)
  }

  function EncodeRecords(rs: seq<Record>): seq<byte> {
    if rs == [] then [] else EncodeRecord(rs[0]) + EncodeRecords(rs[1..])
  }

  /** The record at position at, unless it would leave the buffer. */
  function ParseRecord(s: seq<byte>, at: nat): (p: Option<(Record, nat)>)
    ensures p.Some? ==> at < p.value.1 <= |s|
  {
    if at + 11 > |s| || |s| < Get16(s, at) then None
    else
      var tid, op := FromBytes(s[at + 2..at + 10]), s[at + 10];
      if op == 3 then
        var k := ParseText(s, at + 11);
        if k.None? then None
        else
          var v := ParseText(s, k.value.1);
          if v.None? then None else Some((Put(tid, k.value.0, v.value.0), v.value.1))
      else if op == 4 then
        var k := ParseText(s, at + 11);
        if k.None? then None else Some((Delete(tid, k.value.0), k.value.1))
      else
        var r := if op == 0 then Create(tid) else if op == 1 then Commit(tid) else if op == 2 then Rollback(tid)
          else Unknown(tid, op);
        Some((r, at + 11))
  }

  /** All records from position at to the end. */
  function ParseRecords(s: seq<byte>, at: nat): Option<seq<Record>>
    decreases |s| - at
  {
    if at >= |s| then Some([])
    else
      var p := ParseRecord(s, at);
      if p.None? then None
      else
        var rest := ParseRecords(s, p.value.1);
        if rest.None? then None else Some([p.value.0] + rest.value)
  }

  function DecodeRecords(s: seq<byte>): Option<seq<Record>> {
    if |s| < 11 then Some([]) else ParseRecords(s, 0)
  }

  /** The decode loop. */
  method Decode(s: seq<byte>) returns (r: Option<seq<Record>>)
    ensures r == DecodeRecords(s)
  {
    if |s| < 11 {
      return Some([]);
    }
    var rs, pos := [], 0;
    assert ParseRecords(s, 0).Some? ==> [] + ParseRecords(s, 0).value == ParseRecords(s, 0).value;
    while pos < |s|
      invariant 0 <= pos <= |s|
      invariant ParseRecords(s, 0) == Prepend(rs, ParseRecords(s, pos))
    {
      var p := ParseRecord(s, pos);
      if p.None? {
        return None;
      }
      PrependStep(rs, p.value.0, ParseRecords(s, p.value.1));
      rs, pos := rs + [p.value.0], p.value.1;
    }
    assert rs + [] == rs;
    return Some(rs);
  }

  function Prepend(a: seq<Record>, b: Option<seq<Record>>): Option<seq<Record>> {
    if b.None? then None else Some(a + b.value)
  }

  lemma PrependStep(a: seq<Record>, r: Record, b: Option<seq<Record>>)
    ensures Prepend(a, Prepend([r], b)) == Prepend(a + [r], b)
  {
    if b.Some? {
      assert a + ([r] + b.value) == a + [r] + b.value;
    }
  }

  /** A record written at position at is read back there. */
  lemma RecordRoundTrip(s: seq<byte>, at: nat, r: Record)
    requires RecordFits(r) && at + RecordLen(r) <= |s| && s[at..at + RecordLen(r)] == EncodeRecord(r)
    ensures ParseRecord(s, at) == Some((r, at + RecordLen(r)))
  {
    hide FromBytes, EncodeRecord, ParseText, Get16;
    HeaderReads(s, at, r);
    if r.Put? {
      PutReads(s, at, r.tid, r.key, r.value);
    } else if r.Delete? {
      DeleteReads(s, at, r.tid, r.key);
    }
  }

  lemma PutReads(s: seq<byte>, at: nat, t: nat, k: Key, v: Value)
    requires var r := Put(t, k, v);
      RecordFits(r) && at + RecordLen(r) <= |s| && s[at..at + RecordLen(r)] == EncodeRecord(r)
    ensures
      && ParseText(s, at + 11) == Some((k, at + 13 + |k|))
      && ParseText(s, at + 13 + |k|) == Some((v, at + 15 + |k| + |v|))
  {
    hide ToBytes, EncodeText, ParseText;
    var r, i := Put(t, k, v), 13 + |k|;
    var e, h := EncodeRecord(r), ToBytes(RecordLen(r), 2) + ToBytes(t, 8) + [TypeByte(r)];
    assert e == h + EncodeText(k) + EncodeText(v) + [] + [];
    FiveParts(h, EncodeText(k), EncodeText(v), [], []);
    PartReads(s, at, e, 11, k);
    PartReads(s, at, e, i, v);
  }

  lemma PartReads(s: seq<byte>, at: nat, e: seq<byte>, i: nat, k: Key)
    requires
      && at + |e| <= |s| && s[at..at + |e|] == e && |k| < U16 && i + 2 + |k| <= |e|
      && e[i..i + 2 + |k|] == EncodeText(k)
    ensures ParseText(s, at + i) == Some((k, at + i + 2 + |k|))
  {
    hide EncodeText, ParseText;
    Within(s, at, e, i, i + 2 + |k|);
    TextRoundTrip(s, at + i, k);
  }

  lemma DeleteReads(s: seq<byte>, at: nat, t: nat, k: Key)
    requires var r := Delete(t, k);
      RecordFits(r) && at + RecordLen(r) <= |s| && s[at..at + RecordLen(r)] == EncodeRecord(r)
    ensures ParseText(s, at + 11) == Some((k, at + 13 + |k|))
  {
    hide ToBytes, EncodeText, ParseText;
    var r := Delete(t, k);
    var e, h := EncodeRecord(r), ToBytes(RecordLen(r), 2) + ToBytes(t, 8) + [TypeByte(r)];
    assert e == h + EncodeText(k);
    assert e[11..13 + |k|] == EncodeText(k);
    PartReads(s, at, e, 11, k);
  }

  lemma HeaderReads(s: seq<byte>, at: nat, r: Record)
    requires RecordFits(r) && at + RecordLen(r) <= |s| && s[at..at + RecordLen(r)] == EncodeRecord(r)
    ensures Get16(s, at) == RecordLen(r) && FromBytes(s[at + 2..at + 10]) == r.tid && s[at + 10] == TypeByte(r)
  {
    hide ToBytes, FromBytes, Pow256, Payload;
    Widths();
    ReadBackFits(RecordLen(r), 2);
    ReadBackFits(r.tid, 8);
    var e, l, t := EncodeRecord(r), ToBytes(RecordLen(r), 2), ToBytes(r.tid, 8);
    assert e == l + t + [TypeByte(r)] + Payload(r);
    assert e[0..2] == l && e[2..10] == t && e[10] == TypeByte(r);
    Within(s, at, e, 0, 2);
    Within(s, at, e, 2, 10);
    Within(s, at, e, 10, 11);
    assert s[at + 10..at + 11][0] == s[at + 10] && e[10..11][0] == e[10];
  }

  ghost predicate AllFit(rs: seq<Record>) {
    forall i :: 0 <= i < |rs| ==> RecordFits(rs[i])
  }

  lemma {:induction false} ParseAll(s: seq<byte>, at: nat, rs: seq<Record>)
    requires AllFit(rs) && at <= |s| && s[at..] == EncodeRecords(rs)
    ensures ParseRecords(s, at) == Some(rs)
    decreases |rs|
  {
    hide EncodeRecord, ParseRecord, RecordFits;
    if rs != [] {
      var e := EncodeRecord(rs[0]);
      assert s[at..][..|e|] == e && s[at..][|e|..] == EncodeRecords(rs[1..]);
      assert s[at..at + |e|] == e && s[at + |e|..] == EncodeRecords(rs[1..]);
      LenPositive(rs[0]);
      RecordRoundTrip(s, at, rs[0]);
      ParseAll(s, at + |e|, rs[1..]);
      assert [rs[0]] + rs[1..] == rs;
    }
  }

  lemma LenPositive(r: Record)
    ensures RecordLen(r) >= 11
  {
  }

  /** Decoding the concatenated encodings of records gives back the records. */
  lemma DecodeRoundTrip(rs: seq<Record>)
    requires AllFit(rs)
    ensures DecodeRecords(EncodeRecords(rs)) == Some(rs)
  {
    var s := EncodeRecords(rs);
    assert s[0..] == s;
    ParseAll(s, 0, rs);
    if rs != [] {
      LenPositive(rs[0]);
    }
  }

  lemma {:induction false} EncodeConcat(a: seq<Record>, b: seq<Record>)
    ensures EncodeRecords(a + b) == EncodeRecords(a) + EncodeRecords(b)
  {
    hide EncodeRecord;
    if a == [] {
      assert a + b == b;
    } else {
      var t := a[1..];
      assert (a + b)[0] == a[0] && (a + b)[1..] == t + b;
      EncodeConcat(t, b);
      Assoc(EncodeRecord(a[0]), EncodeRecords(t), EncodeRecords(b));
    }
  }

  lemma Assoc(x: seq<byte>, y: seq<byte>, z: seq<byte>)
    ensures x + (y + z) == x + y + z
  {
  }
}
