/** The write-ahead log: a buffer, an active file, and the files rotated out before it. */
module Wals {
  import opened Keys
  import opened Versions
  import opened Records

  function Concat(parts: seq<seq<Record>>): seq<Record> {
    if parts == [] then [] else Concat(parts[..|parts| - 1]) + parts[|parts| - 1]
  }

  lemma ConcatSnoc(parts: seq<seq<Record>>, p: seq<Record>)
    ensures Concat(parts + [p]) == Concat(parts) + p
  {
    assert (parts + [p])[..|parts|] == parts;
  }

  /** Each file is the encoding of its records. */
  ghost predicate FilesHold(files: seq<seq<byte>>, parts: seq<seq<Record>>) {
    |files| == |parts| && forall i :: 0 <= i < |files| ==> AllFit(parts[i]) && files[i] == EncodeRecords(parts[i])
  }

  /** Only the records of one id, in order. */
  function Only(rs: seq<Record>, id: nat): seq<Record> {
    if rs == [] then []
    else
      var front := Only(rs[..|rs| - 1], id);
      if rs[|rs| - 1].tid == id then front + [rs[|rs| - 1]] else front
  }

  /** One more record sorted into the lists by id, if its id is above the watermark. */
  function GroupOne(m: map<nat, seq<Record>>, r: Record, watermark: nat): map<nat, seq<Record>> {
    if r.tid > watermark then m[r.tid := (if r.tid in m then m[r.tid] else []) + [r]] else m
  }

  function Group(rs: seq<Record>, watermark: nat): map<nat, seq<Record>> {
    if rs == [] then map[] else GroupOne(Group(rs[..|rs| - 1], watermark), rs[|rs| - 1], watermark)
  }

  /** Grouping keeps, for every id above the watermark that occurs, exactly its records in order. */
  lemma {:induction false} GroupExact(rs: seq<Record>, watermark: nat, id: nat)
    ensures id in Group(rs, watermark) <==> id > watermark && Only(rs, id) != []
    ensures id in Group(rs, watermark) ==> Group(rs, watermark)[id] == Only(rs, id)
  {
    if rs != [] {
      GroupExact(rs[..|rs| - 1], watermark, id);
    }
  }

  lemma {:induction false} OnlyConcat(a: seq<Record>, b: seq<Record>, id: nat)
    ensures Only(a + b, id) == Only(a, id) + Only(b, id)
  {
    if b == [] {
      assert a + b == a;
    } else {
      var front := b[..|b| - 1];
      OnlyConcat(a, front, id);
      assert (a + b)[..|a + b| - 1] == a + front;
    }
  }

  lemma {:induction false} OnlyAll(rs: seq<Record>, id: nat)
    requires forall r :: r in rs ==> r.tid == id
    ensures Only(rs, id) == rs
  {
    if rs != [] {
      OnlyAll(rs[..|rs| - 1], id);
      assert rs == rs[..|rs| - 1] + [rs[|rs| - 1]];
    }
  }

  lemma {:induction false} OnlyNone(rs: seq<Record>, id: nat)
    requires forall r :: r in rs ==> r.tid != id
    ensures Only(rs, id) == []
  {
    if rs != [] {
      OnlyNone(rs[..|rs| - 1], id);
    }
  }

  class Wal {
    const bufferSize: nat
    const fileLimit: nat
    var closed: seq<seq<byte>>
    var active: seq<byte>
    var buffer: seq<Record>
    ghost var parts: seq<seq<Record>>
    ghost var tail: seq<Record>

    ghost predicate Valid()
      reads this
    {
      FilesHold(closed, parts) && AllFit(tail) && active == EncodeRecords(tail) && AllFit(buffer)
    }

    /** Everything that has reached a file, in file order. */
    ghost function Durable(): seq<Record>
      reads `parts, `tail
    {
      Concat(parts) + tail
    }

    constructor (bufferSize: nat, fileLimit: nat)
      ensures Valid() && Durable() == [] && buffer == [] && closed == [] && active == []
      ensures this.bufferSize == bufferSize && this.fileLimit == fileLimit
    {
      this.bufferSize, this.fileLimit := bufferSize, fileLimit;
      closed, active, buffer := [], [], [];
      parts, tail := [], [];
    }

    /** Logs records: files and buffer together hold everything ever logged, in order; a forced
        call, or one that fills the buffer, leaves nothing in the buffer. */
    method Log(records: seq<Record>, force: bool)
      requires Valid() && AllFit(records)
      modifies this
      ensures Valid() && Durable() + buffer == old(Durable() + buffer) + records
      ensures if force || |old(buffer)| + |records| >= bufferSize then buffer == [] else Durable() == old(Durable())
      ensures |active| <= fileLimit || active == old(active)
      ensures closed == old(closed) || (|closed| == |old(closed)| + 1 && old(closed) <= closed
        && |closed[|old(closed)|]| > fileLimit)
    {
      hide EncodeRecords, RecordFits, FilesHold, Concat;
      ghost var d, b := Durable(), buffer;
      buffer := buffer + records;
      if |buffer| < bufferSize && !force {
        assert d + (b + records) == d + b + records;
        return;
      }
      var pre := buffer;
      buffer := [];
      AppendAll(pre);
      if |active| > fileLimit {
        ResetFile();
      }
      assert Durable() == d + (b + records) == d + b + records;
    }

    /** The loop that encodes and appends record by record. */
    method AppendAll(rs: seq<Record>)
      requires Valid() && AllFit(rs)
      modifies `active, `tail
      ensures Valid() && tail == old(tail) + rs && Durable() == old(Durable()) + rs
    {
      hide EncodeRecord, RecordFits;
      for i := 0 to |rs|
        invariant active == EncodeRecords(tail) && tail == old(tail) + rs[..i]
      {
        active := active + EncodeRecord(rs[i]);
        EncodeSnoc(tail, rs[i]);
        tail := tail + [rs[i]];
        assert rs[..i + 1] == rs[..i] + [rs[i]];
      }
      assert rs[..|rs|] == rs;
    }

    /** Starts the next file. */
    method ResetFile()
      requires Valid()
      modifies `closed, `active, `parts, `tail
      ensures Valid() && Durable() == old(Durable()) && closed == old(closed) + [old(active)] && active == []
    {
      ConcatSnoc(parts, tail);
      closed, active := closed + [active], [];
      parts, tail := parts + [tail], [];
    }

    /** The log files in order of their sequence numbers. */
    function Files(): seq<seq<byte>>
      reads this
    {
      closed + [active]
    }
  }

  lemma EncodeSnoc(rs: seq<Record>, r: Record)
    ensures EncodeRecords(rs + [r]) == EncodeRecords(rs) + EncodeRecord(r)
  {
    EncodeConcat(rs, [r]);
    assert [r][1..] == [];
    assert EncodeRecord(r) + [] == EncodeRecord(r);
  }

  /** Reads all files and sorts the records above the watermark by id; nothing if one of the
      files cannot be decoded. */
  method Recover(files: seq<seq<byte>>, watermark: nat, ghost parts: seq<seq<Record>>)
    returns (r: Option<map<nat, seq<Record>>>)
    ensures FilesHold(files, parts) ==> r == Some(Group(Concat(parts), watermark))
  {
    hide EncodeRecords, RecordFits, Group;
    var m := map[];
    GroupNothing(watermark);
    for i := 0 to |files|
      invariant FilesHold(files, parts) ==> m == Group(Concat(parts[..i]), watermark)
    {
      var rs := Decode(files[i]);
      if FilesHold(files, parts) {
        DecodeRoundTrip(parts[i]);
        assert parts[..i + 1][..i] == parts[..i];
      }
      if rs.None? {
        return None;
      }
      ghost var seen := if FilesHold(files, parts) then Concat(parts[..i]) else [];
      m := GroupAll(m, rs.value, watermark, seen);
    }
    assert FilesHold(files, parts) ==> parts[..|files|] == parts;
    return Some(m);
  }

  lemma GroupNothing(watermark: nat)
    ensures Group([], watermark) == map[]
  {
  }

  method GroupAll(m0: map<nat, seq<Record>>, rs: seq<Record>, watermark: nat, ghost seen: seq<Record>)
    returns (m: map<nat, seq<Record>>)
    ensures m0 == Group(seen, watermark) ==> m == Group(seen + rs, watermark)
  {
    m := m0;
    assert seen + rs[..0] == seen;
    for j := 0 to |rs|
      invariant m0 == Group(seen, watermark) ==> m == Group(seen + rs[..j], watermark)
    {
      m := GroupOne(m, rs[j], watermark);
      ghost var all := seen + rs[..j + 1];
      assert all[..|all| - 1] == seen + rs[..j];
    }
    assert rs[..|rs|] == rs;
  }

  /** Recovery from the files of a log returns, for every id above the watermark, exactly its
      durable records in log order. */
  lemma RecoverExact(w: Wal, watermark: nat, id: nat)
    requires w.Valid()
    ensures FilesHold(w.Files(), w.parts + [w.tail]) && Concat(w.parts + [w.tail]) == w.Durable()
    ensures var m := Group(w.Durable(), watermark);
      (id in m <==> id > watermark && Only(w.Durable(), id) != []) && (id in m ==> m[id] == Only(w.Durable(), id))
  {
    ConcatSnoc(w.parts, w.tail);
    GroupExact(w.Durable(), watermark, id);
  }
}
