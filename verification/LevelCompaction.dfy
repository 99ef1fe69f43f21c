/** Compacting a level into the next one: both are iterated, merged, and cut into the files of a new level. */
module LevelCompaction {
  import opened Keys
  import opened Versions
  import opened BlockSearch
  import opened Cutting
  import opened SstFile
  import opened Layers
  import opened Iterators
  import opened Engines
  import opened Compaction

  /** Takes the current pair and goes on. */
  method TakeNext(it: ConcatIterator) returns (p: Pair, end: bool)
    requires it.Valid() && it.Rest() != []
    modifies it.Repr()
    ensures it.Valid() && fresh(it.Repr() - old(it.Repr()))
    ensures old(it.Rest()) == [p] + it.Rest() && (end <==> it.Rest() == [])
  {
    hide ConcatIterator.Valid, ConcatIterator.Rest;
    p := it.Current();
    it.Next();
    end := it.IsEnd();
  }

  /** Everything a row of files yields. */
  method ReadRow(ssts: seq<Sst>, hash: seq<byte> -> nat, ghost parts: seq<seq<seq<Entry>>>) returns (ps: seq<Pair>)
    requires |parts| == |ssts| && forall i :: 0 <= i < |ssts| ==> S.Stores(ssts[i], parts[i], hash)
    ensures ps == RestBlocks(Tables(parts))
  {
    hide S.Stores, RestBlocks, ConcatIterator.Valid, ConcatIterator.Rest;
    var it := new ConcatIterator(ssts, hash, parts);
    ps := [];
    var end := it.IsEnd();
    while !end
      invariant it.Valid() && fresh(it.Repr()) && ps + it.Rest() == RestBlocks(Tables(parts))
      invariant end <==> it.Rest() == []
      decreases |it.Rest()|
    {
      var p;
      p, end := TakeNext(it);
      ps := ps + [p];
    }
  }

  /** Everything a merge of two streams yields. */
  method ReadMerge(a: seq<Pair>, b: seq<Pair>) returns (ps: seq<Pair>)
    requires Ascending(a) && Ascending(b)
    ensures ps == Merge(a, b)
  {
    hide Merge, Ascending;
    var it := new TwoMerge(a, b);
    ps := [];
    var end := it.IsEnd();
    while !end
      invariant it.Valid() && ps + it.Rest() == Merge(a, b)
      invariant end <==> it.Rest() == []
      decreases |it.Rest()|
    {
      var p := it.Current();
      it.Next();
      ps := ps + [p];
      end := it.IsEnd();
    }
  }

  /** The files of a level, in order. */
  function Row<T>(m: map<nat, T>, ids: seq<nat>): (xs: seq<T>)
    requires forall i :: 0 <= i < |ids| ==> ids[i] in m
    ensures |xs| == |ids| && forall i :: 0 <= i < |ids| ==> xs[i] == m[ids[i]]
  {
    seq(|ids|, i requires 0 <= i < |ids| => m[ids[i]])
  }

  /** Iterating a level yields each of its keys once, ascending, with its newest version's value. */
  method ReadLevel(ssts: map<nat, Sst>, ids: seq<nat>, hash: seq<byte> -> nat, ghost parts: Parts)
    returns (ps: seq<Pair>)
    requires LevelOk(ssts, parts, hash, ids)
    ensures ps == FirstPerKey(LevelTable(parts, ids))
  {
    LevelRow(ssts, parts, hash, ids);
    hide S.Stores, KeysApart, Flatten, RestBlocks, FirstPerKey;
    ps := ReadRow(Row(ssts, ids), hash, Row(parts, ids));
  }

  lemma LevelRow(ssts: map<nat, Sst>, parts: Parts, hash: seq<byte> -> nat, ids: seq<nat>)
    requires LevelOk(ssts, parts, hash, ids)
    ensures forall i :: 0 <= i < |ids| ==>
      ids[i] in ssts && ids[i] in parts && S.Stores(ssts[ids[i]], parts[ids[i]], hash)
    ensures RestBlocks(Tables(Row(parts, ids))) == FirstPerKey(LevelTable(parts, ids))
  {
    hide S.Stores, KeysApart, Flatten, RestBlocks, FirstPerKey;
    assert forall i :: 0 <= i < |ids| ==> FileOk(ssts, parts, hash, ids[i]);
    assert Tables(Row(parts, ids)) == FileTables(parts, ids);
    BlocksInRow(FileTables(parts, ids));
  }

  /** The table of a level is sorted. */
  lemma LevelSorted(ssts: map<nat, Sst>, parts: Parts, hash: seq<byte> -> nat, ids: seq<nat>)
    requires LevelOk(ssts, parts, hash, ids)
    ensures Sorted(LevelTable(parts, ids))
  {
    hide Flatten, KeysApart, Sorted;
    forall i | 0 <= i < |ids|
      ensures Sorted(FileTables(parts, ids)[i])
    {
      assert FileOk(ssts, parts, hash, ids[i]);
    }
    InRowSorted(FileTables(parts, ids));
  }

  lemma {:induction false} InRowSorted(ts: seq<seq<Entry>>)
    requires KeysApart(ts) && AllSorted(ts)
    ensures Sorted(Flatten(ts))
  {
    if ts != [] {
      var n := |ts| - 1;
      InRowSorted(ts[..n]);
      forall x, y | x in Flatten(ts[..n]) && y in ts[n]
        ensures Before(x, y)
      {
        FromFlatten(ts[..n], x);
        var i :| 0 <= i < n && x in ts[..n][i];
        assert KeysBelow(ts[i], ts[n]);
      }
    }
  }

  /** What compaction iterates: of each key the newest version of the upper level, or else of the lower one. */
  ghost function Merged(upper: seq<Entry>, lower: seq<Entry>): seq<Pair> {
    Merge(FirstPerKey(upper), FirstPerKey(lower))
  }

  /** The stream a compaction cuts: ascending, and a pair is in it if and only if its value is what an
      unfiltered read of the two levels finds. */
  lemma MergedExact(upper: seq<Entry>, lower: seq<Entry>, k: Key, v: Value)
    requires Sorted(upper) && Sorted(lower)
    ensures Ascending(Merged(upper, lower))
    ensures (k, v) in Merged(upper, lower) <==> ValueOf(FirstMatch([upper, lower], k, 0)) == Some(v)
  {
    hide Merge, FirstPerKey, Lookup, Sorted;
    var a, b := FirstPerKey(upper), FirstPerKey(lower);
    FirstPerKeyExact(upper);
    FirstPerKeyExact(lower);
    MergeAscending(a, b);
    MergeExact(a, b, (k, v));
    TwoTables(upper, lower, k);
    var u := Lookup(upper, k, 0);
    if u.Some? {
      assert (k, u.value.value) in a;
    } else {
      forall q | q in a
        ensures q.0 != k
      {
        assert (q.0, q.1) in a;
      }
    }
  }

  lemma TwoTables(upper: seq<Entry>, lower: seq<Entry>, k: Key)
    ensures FirstMatch([upper, lower], k, 0) ==
      if Lookup(upper, k, 0).Some? then Lookup(upper, k, 0) else Lookup(lower, k, 0)
  {
    assert [upper, lower][1..] == [lower] && [lower][1..] == [];
    assert FirstMatch([lower], k, 0) == Lookup(lower, k, 0);
  }

  /** The key went with the tail that no file was written for. */
  predicate Lost(dropped: seq<Entry>, k: Key) {
    exists i :: 0 <= i < |dropped| && dropped[i].key == k
  }

  /** For every key and every reader the new level gives what an unfiltered read of the two levels gave,
      except for lost keys, for which it gives nothing. */
  lemma CompactedReads(upper: seq<Entry>, lower: seq<Entry>, es: seq<Entry>, dropped: seq<Entry>, k: Key, t: nat)
    requires Sorted(upper) && Sorted(lower) && es + dropped == Zeroed(Merged(upper, lower))
    ensures ValueOf(Lookup(es, k, t)) ==
      if Lost(dropped, k) then None else ValueOf(FirstMatch([upper, lower], k, 0))
    ensures Lost(dropped, k) ==> FirstMatch([upper, lower], k, 0).Some?
  {
    hide Merge, Merged, FirstPerKey, Sorted, FirstMatch, Zeroed, Lookup, Lost;
    var ps, m := Merged(upper, lower), FirstMatch([upper, lower], k, 0);
    if m.Some? {
      MergedExact(upper, lower, k, m.value.value);
      PairRead(ps, es, dropped, (k, m.value.value), t);
    } else {
      forall v
        ensures (k, v) !in ps
      {
        MergedExact(upper, lower, k, v);
      }
      NoPairRead(ps, es, dropped, k, t);
    }
  }

  /** A pair of the stream is in a file or lost, not both. */
  lemma PairRead(ps: seq<Pair>, es: seq<Entry>, dropped: seq<Entry>, p: Pair, t: nat)
    requires Ascending(ps) && es + dropped == Zeroed(ps) && p in ps
    ensures Lookup(es, p.0, t) == if Lost(dropped, p.0) then None else Some(Entry(p.0, p.1, 0))
  {
    LookupPosition(es, p.0, t);
    LessIrreflexive(p.0);
    var i :| 0 <= i < |ps| && ps[i] == p;
    forall j | 0 <= j < |ps| && ps[j].0 == p.0
      ensures j == i
    {
    }
    assert forall j :: 0 <= j < |es| ==> es[j] == Zeroed(ps)[j];
    assert forall j :: 0 <= j < |dropped| ==> dropped[j] == Zeroed(ps)[|es| + j];
    assert i >= |es| ==> dropped[i - |es|].key == p.0;
    assert i < |es| ==> es[i] == Entry(p.0, p.1, 0);
  }

  lemma NoPairRead(ps: seq<Pair>, es: seq<Entry>, dropped: seq<Entry>, k: Key, t: nat)
    requires es + dropped == Zeroed(ps) && forall v :: (k, v) !in ps
    ensures Lookup(es, k, t) == None && !Lost(dropped, k)
  {
    forall j | 0 <= j < |ps|
      ensures ps[j].0 != k
    {
      assert (ps[j].0, ps[j].1) in ps;
    }
    assert forall j :: 0 <= j < |es| ==> es[j] == Zeroed(ps)[j];
    assert forall j :: 0 <= j < |dropped| ==> dropped[j] == Zeroed(ps)[|es| + j];
    LookupAbsent(es, k, t);
  }

  /** In a stack of tables, compacting two levels gives every reader below the newer tables the newest
      version of the two, whatever its id.  An unfiltered read is unchanged if and only if the key was not
      lost, or newer tables answer for it, or older ones have the same value. */
  lemma CompactedStack(newer: seq<seq<Entry>>, upper: seq<Entry>, lower: seq<Entry>, older: seq<seq<Entry>>,
      es: seq<Entry>, dropped: seq<Entry>, k: Key, t: nat)
    requires Sorted(upper) && Sorted(lower) && es + dropped == Zeroed(Merged(upper, lower))
    ensures
      var r, m := FirstMatch(newer + ([[], es] + older), k, t), FirstMatch([upper, lower], k, 0);
      ValueOf(r) ==
        if FirstMatch(newer, k, t).Some? then ValueOf(FirstMatch(newer, k, t))
        else if m.Some? && !Lost(dropped, k) then ValueOf(m)
        else ValueOf(FirstMatch(older, k, t))
    ensures
      ValueOf(FirstMatch(newer + ([[], es] + older), k, 0)) ==
        ValueOf(FirstMatch(newer + ([upper, lower] + older), k, 0))
      <==> (Lost(dropped, k) && FirstMatch(newer, k, 0).None? ==>
        ValueOf(FirstMatch([upper, lower], k, 0)) == ValueOf(FirstMatch(older, k, 0)))
  {
    hide Merged, Sorted, Lookup, Zeroed;
    CompactedReads(upper, lower, es, dropped, k, t);
    CompactedReads(upper, lower, es, dropped, k, 0);
    EmptyAbove(es, k, t);
    EmptyAbove(es, k, 0);
    hide Lost, FirstMatch;
    FirstMatchConcat(newer, [[], es] + older, k, t);
    FirstMatchConcat([[], es], older, k, t);
    FirstMatchConcat(newer, [[], es] + older, k, 0);
    FirstMatchConcat([[], es], older, k, 0);
    FirstMatchConcat(newer, [upper, lower] + older, k, 0);
    FirstMatchConcat([upper, lower], older, k, 0);
  }

  lemma EmptyAbove(es: seq<Entry>, k: Key, t: nat)
    ensures FirstMatch([[], es], k, t) == Lookup(es, k, t)
  {
    assert [[], es][1..] == [es] && [es][1..] == [];
    assert FirstMatch([es], k, t) == Lookup(es, k, t);
  }

  /** Compacts a level into the next: the new files hold the merged stream, less the lost tail. */
  method CompactLevels(ssts: map<nat, Sst>, xs: seq<nat>, ys: seq<nat>, target: nat, config: Config,
      hash: seq<byte> -> nat, firstId: nat, ghost parts: Parts)
    returns (files: seq<Sst>, ids: seq<nat>, nextId: nat, ghost tables: seq<seq<Entry>>, ghost dropped: seq<Entry>)
    requires ConfigOk(config) && LevelOk(ssts, parts, hash, xs) && LevelOk(ssts, parts, hash, ys)
    requires S.KeysNonEmpty(LevelTable(parts, xs)) && S.KeysNonEmpty(LevelTable(parts, ys))
    ensures AllWritten(files, tables, config.blockSize, hash) && KeysApart(tables)
    ensures |ids| == |files| && nextId == firstId + |ids| && forall i :: 0 <= i < |ids| ==> ids[i] == firstId + i
    ensures Flatten(tables) + dropped == Zeroed(Merged(LevelTable(parts, xs), LevelTable(parts, ys)))
    ensures var c := CutStream(Merged(LevelTable(parts, xs), LevelTable(parts, ys)), target, config.blockSize, hash);
      tables == FilesOf(c, config.blockSize) && dropped == DroppedOf(c, config.blockSize)
  {
    hide Merge, FirstPerKey, LevelOk, LevelTable, Flatten, CutStream, AllWritten, KeysApart, S.KeysNonEmpty, Zeroed;
    MergedOk(ssts, parts, hash, xs, ys);
    var a := ReadLevel(ssts, xs, hash, parts);
    var b := ReadLevel(ssts, ys, hash, parts);
    var ps := ReadMerge(a, b);
    files, ids, nextId, tables, dropped := GenFiles(ps, target, config, hash, firstId);
  }

  lemma MergedOk(ssts: map<nat, Sst>, parts: Parts, hash: seq<byte> -> nat, xs: seq<nat>, ys: seq<nat>)
    requires LevelOk(ssts, parts, hash, xs) && LevelOk(ssts, parts, hash, ys)
    requires S.KeysNonEmpty(LevelTable(parts, xs)) && S.KeysNonEmpty(LevelTable(parts, ys))
    ensures Sorted(LevelTable(parts, xs)) && Sorted(LevelTable(parts, ys))
    ensures
      && Ascending(FirstPerKey(LevelTable(parts, xs))) && Ascending(FirstPerKey(LevelTable(parts, ys)))
      && Ascending(Merged(LevelTable(parts, xs), LevelTable(parts, ys)))
      && forall p :: p in Merged(LevelTable(parts, xs), LevelTable(parts, ys)) ==> p.0 != []
  {
    hide Merge, FirstPerKey, LevelOk, LevelTable, Sorted;
    var upper, lower := LevelTable(parts, xs), LevelTable(parts, ys);
    LevelSorted(ssts, parts, hash, xs);
    LevelSorted(ssts, parts, hash, ys);
    FirstPerKeyExact(upper);
    FirstPerKeyExact(lower);
    MergeAscending(FirstPerKey(upper), FirstPerKey(lower));
    forall p | p in Merged(upper, lower)
      ensures p.0 != []
    {
      MergeFrom(FirstPerKey(upper), FirstPerKey(lower), p);
    }
  }

  /** After a compaction, searching the new level for any key at any id gives what an unfiltered read of
      the two old levels gives, or nothing if the key was lost. */
  method SearchCompacted(ssts: map<nat, Sst>, xs: seq<nat>, ys: seq<nat>, target: nat, config: Config,
      hash: seq<byte> -> nat, firstId: nat, key: Key, t: nat, ghost parts: Parts)
    returns (r: Option<Value>)
    requires ConfigOk(config) && LevelOk(ssts, parts, hash, xs) && LevelOk(ssts, parts, hash, ys)
    requires S.KeysNonEmpty(LevelTable(parts, xs)) && S.KeysNonEmpty(LevelTable(parts, ys))
    requires var c := CutStream(Merged(LevelTable(parts, xs), LevelTable(parts, ys)), target, config.blockSize, hash);
      AllFit(FilesOf(c, config.blockSize), config.blockSize, hash)
    ensures var c := CutStream(Merged(LevelTable(parts, xs), LevelTable(parts, ys)), target, config.blockSize, hash);
      r ==
        if Lost(DroppedOf(c, config.blockSize), key) then None
        else ValueOf(FirstMatch([LevelTable(parts, xs), LevelTable(parts, ys)], key, 0))
  {
    hide Merged, LevelOk, LevelTable, Flatten, CutStream, AllWritten, KeysApart, S.KeysNonEmpty, Zeroed, Lookup, AllFit,
      FilesOf, DroppedOf, Numbered, Blocked, FirstMatch, Legible, Lost, Sorted;
    var files, ids, nextId;
    ghost var tables, dropped;
    files, ids, nextId, tables, dropped := CompactLevels(ssts, xs, ys, target, config, hash, firstId, parts);
    GeneratedLevel(files, tables, ids, firstId, config.blockSize, hash);
    ghost var ps := Merged(LevelTable(parts, xs), LevelTable(parts, ys));
    ZeroLegible(ps, Flatten(tables), dropped, key, t);
    MergedOk(ssts, parts, hash, xs, ys);
    CompactedReads(LevelTable(parts, xs), LevelTable(parts, ys), Flatten(tables), dropped, key, t);
    r := LevelGet(Numbered(files, firstId), ids, key, t, hash, Numbered(Blocked(tables, config.blockSize), firstId));
  }
}
