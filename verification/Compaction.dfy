/** Cutting a merged stream into the files of a lower level. */
module Compaction {
  import opened Keys
  import opened Versions
  import opened BlockSearch
  import opened Bloom
  import opened Cutting
  import opened SstFile
  import opened Iterators
  import opened Engines

  /** The stream as versions: compaction gives every version the id 0. */
  function Zeroed(ps: seq<Pair>): (es: seq<Entry>)
    ensures |es| == |ps| && forall i :: 0 <= i < |ps| ==> es[i] == Entry(ps[i].0, ps[i].1, 0)
  {
    seq(|ps|, i requires 0 <= i < |ps| => Entry(ps[i].0, ps[i].1, 0))
  }

  /** File i has id first + i and, if its table fits the format, holds it. */
  ghost predicate AllWritten(ssts: seq<Sst>, tables: seq<seq<Entry>>, blockSize: nat, hash: seq<byte> -> nat) {
    |ssts| == |tables| && forall i :: 0 <= i < |tables| ==> WrittenOk(ssts[i], tables[i], blockSize, hash)
  }

  ghost predicate WrittenOk(sst: Sst, es: seq<Entry>, blockSize: nat, hash: seq<byte> -> nat) {
    es != [] && (S.TableFits(es, blockSize, hash) ==> FileHolds(sst, es, blockSize, hash))
  }

  lemma ZeroedSorted(ps: seq<Pair>)
    requires Ascending(ps)
    ensures Sorted(Zeroed(ps))
  {
  }

  /** Cutting a stream of distinct ascending keys gives files with disjoint ascending ranges. */
  lemma {:induction false} CutsApart(tables: seq<seq<Entry>>, rest: seq<Entry>)
    requires Sorted(Flatten(tables) + rest) && forall i, j :: 0 <= i < j < |Flatten(tables) + rest| ==>
      (Flatten(tables) + rest)[i].key != (Flatten(tables) + rest)[j].key
    ensures KeysApart(tables)
  {
    if tables != [] {
      var front, l := tables[..|tables| - 1], tables[|tables| - 1];
      var f := Flatten(front);
      assert Flatten(tables) + rest == f + (l + rest);
      CutsApart(front, l + rest);
      forall i | 0 <= i < |front|
        ensures KeysBelow(front[i], l)
      {
        forall x: Entry, y: Entry | x in front[i] && y in l
          ensures Less(x.key, y.key)
        {
          InFlatten(front, i);
          DistinctAcross(f, l + rest, x, y);
        }
      }
      forall i, j | 0 <= i < j < |tables|
        ensures KeysBelow(tables[i], tables[j])
      {
        assert tables[i] == front[i];
        assert j < |front| ==> tables[j] == front[j];
      }
    }
  }

  lemma DistinctAcross(a: seq<Entry>, b: seq<Entry>, x: Entry, y: Entry)
    requires
      && Sorted(a + b) && x in a && y in b
      && forall i, j :: 0 <= i < j < |a + b| ==> (a + b)[i].key != (a + b)[j].key
    ensures Less(x.key, y.key)
  {
    var i :| 0 <= i < |a| && a[i] == x;
    var j :| 0 <= j < |b| && b[j] == y;
    assert (a + b)[i] == x && (a + b)[|a| + j] == y;
    assert Before((a + b)[i], (a + b)[|a| + j]);
  }

  /** The bytes a builder reports are those of its finished blocks. */
  function Finished(es: seq<Entry>, blockSize: nat, hash: seq<byte> -> nat): nat {
    |Sections(CutAll(es, blockSize).done, hash)|
  }

  lemma FinishedZero(es: seq<Entry>, blockSize: nat, hash: seq<byte> -> nat)
    ensures Finished(es, blockSize, hash) == 0 <==> CutAll(es, blockSize).done == []
  {
  }

  /** The files closed at full size, and what is left in the builder. */
  datatype StreamCut = StreamCut(full: seq<seq<Entry>>, tail: seq<Entry>)

  /** A file is closed at the first pair that brings its finished blocks to the target size. */
  function CutStream(ps: seq<Pair>, target: nat, blockSize: nat, hash: seq<byte> -> nat): StreamCut {
    if ps == [] then StreamCut([], [])
    else AddPair(CutStream(ps[..|ps| - 1], target, blockSize, hash), ps[|ps| - 1], target, blockSize, hash)
  }

  function AddPair(c: StreamCut, p: Pair, target: nat, blockSize: nat, hash: seq<byte> -> nat): StreamCut {
    var es := c.tail + [Entry(p.0, p.1, 0)];
    if Finished(es, blockSize, hash) >= target then StreamCut(c.full + [es], []) else StreamCut(c.full, es)
  }

  lemma CutNone(target: nat, blockSize: nat, hash: seq<byte> -> nat)
    ensures CutStream([], target, blockSize, hash) == StreamCut([], [])
  {
  }

  lemma {:induction false} CutNext(ps: seq<Pair>, i: nat, target: nat, blockSize: nat, hash: seq<byte> -> nat)
    requires i < |ps|
    ensures CutStream(ps[..i + 1], target, blockSize, hash) == AddPair(CutStream(ps[..i], target, blockSize, hash),
        ps[i], target, blockSize, hash)
  {
    assert ps[..i + 1][..i] == ps[..i];
  }

  /** Files and tail are the stream; every file reaches the target with its last pair and not
      before, and the tail does not. */
  lemma {:induction false} CutStreamExact(ps: seq<Pair>, target: nat, blockSize: nat, hash: seq<byte> -> nat)
    ensures var c := CutStream(ps, target, blockSize, hash);
      && Flatten(c.full) + c.tail == Zeroed(ps)
      && (forall i :: 0 <= i < |c.full| ==> FirstFull(c.full[i], target, blockSize, hash))
      && (c.tail != [] ==> Finished(c.tail, blockSize, hash) < target)
  {
    hide Finished, Flatten;
    if ps == [] {
      NothingYet();
    } else {
      var n := |ps| - 1;
      CutStreamExact(ps[..n], target, blockSize, hash);
      var c := CutStream(ps[..n], target, blockSize, hash);
      var es := c.tail + [Entry(ps[n].0, ps[n].1, 0)];
      assert ps[..n + 1] == ps;
      AddedNext(ps, n, c.full, c.tail, es);
      FlattenSnoc(c.full, es);
      assert es[..|es| - 1] == c.tail;
    }
  }

  predicate FirstFull(es: seq<Entry>, target: nat, blockSize: nat, hash: seq<byte> -> nat) {
    && es != [] && Finished(es, blockSize, hash) >= target
    && (|es| > 1 ==> Finished(es[..|es| - 1], blockSize, hash) < target)
  }

  /** Entries with different keys stay in one open block as long as that has room for them. */
  lemma {:induction false} OneBlock(es: seq<Entry>, blockSize: nat)
    requires forall i, j :: 0 <= i < j < |es| ==> es[i].key != es[j].key
    ensures CutAll(es, blockSize).done == [] <==> |es| <= 1 || BlockSize(es) <= blockSize
    ensures CutAll(es, blockSize).done == [] ==> CutAll(es, blockSize).open == es
  {
    hide BlockSize;
    if es != [] {
      var front, e := es[..|es| - 1], Last(es);
      assert CutAll(es, blockSize) == CutStep(CutAll(front, blockSize), e, blockSize);
      hide CutAll;
      assert front + [e] == es;
      OneBlock(front, blockSize);
      SizeNext(front, e);
      if front == [] {
        EmptyCut(blockSize);
      } else {
        assert Last(front) == es[|es| - 2];
      }
    }
  }

  lemma EmptyCut(blockSize: nat)
    ensures CutAll([], blockSize) == Cut([], [])
  {
  }

  lemma SizeNext(es: seq<Entry>, e: Entry)
    ensures BlockSize(es + [e]) == BlockSize(es) + |e.key| + |e.value| + 14
  {
    assert (es + [e])[..|es|] == es;
  }

  /** Does the tail of a stream fit one block? Then no block of it is finished, and it is lost. */
  predicate TailLost(tail: seq<Entry>, blockSize: nat) {
    tail != [] && (|tail| == 1 || BlockSize(tail) <= blockSize)
  }

  /** The files written for a cut stream. */
  function FilesOf(c: StreamCut, blockSize: nat): seq<seq<Entry>> {
    if c.tail == [] || TailLost(c.tail, blockSize) then c.full else c.full + [c.tail]
  }

  /** What no file was written for. */
  function DroppedOf(c: StreamCut, blockSize: nat): seq<Entry> {
    if TailLost(c.tail, blockSize) then c.tail else []
  }

  lemma LostWhen(ps: seq<Pair>, target: nat, blockSize: nat, hash: seq<byte> -> nat)
    requires Ascending(ps)
    ensures var tail := CutStream(ps, target, blockSize, hash).tail;
      Finished(tail, blockSize, hash) == 0 <==> tail == [] || TailLost(tail, blockSize)
  {
    hide Finished, CutStream, BlockSize, CutAll;
    var c := CutStream(ps, target, blockSize, hash);
    CutStreamExact(ps, target, blockSize, hash);
    TailDistinct(ps, Flatten(c.full), c.tail);
    OneBlock(c.tail, blockSize);
    FinishedZero(c.tail, blockSize, hash);
  }

  lemma TailDistinct(ps: seq<Pair>, front: seq<Entry>, tail: seq<Entry>)
    requires Ascending(ps) && front + tail == Zeroed(ps)
    ensures forall i, j :: 0 <= i < j < |tail| ==> tail[i].key != tail[j].key
  {
    forall i, j | 0 <= i < j < |tail|
      ensures tail[i].key != tail[j].key
    {
      assert tail[i] == Zeroed(ps)[|front| + i] && tail[j] == Zeroed(ps)[|front| + j];
      LessIrreflexive(tail[i].key);
    }
  }

  method NewBuilder(config: Config, hash: seq<byte> -> nat) returns (b: S.SSTBuilder)
    requires ConfigOk(config)
    ensures fresh(b) && fresh(b.block) && (b.bloom != null ==> fresh(b.bloom))
    ensures b.Valid() && b.added == [] && b.capacity == config.blockSize && b.hash == hash
  {
    var bloom := new BloomFilter(hash, config.bloomExpected, config.bloomRate, config.bloomBits, config.bloomHashes);
    b := new S.SSTBuilder(config.blockSize, bloom, hash);
  }

  /** Closes a builder that is not empty. */
  method CloseFile(b: S.SSTBuilder) returns (sst: Sst)
    requires b.Valid() && b.added != [] && Sorted(b.added)
    modifies b
    ensures WrittenOk(sst, old(b.added), b.capacity, b.hash)
  {
    hide S.SSTBuilder.Valid, S.Stores, S.TableFits;
    var r := S.CloseTable(b);
    sst := r.value;
  }

  /** Adds the stream to builders, closing a file whenever one has grown to the target size, and
      the last one if a block of it is finished.  So the files are those of the cut, then the tail
      of the cut unless it fits one block; that tail is what is lost. */
  method GenFiles(ps: seq<Pair>, target: nat, config: Config, hash: seq<byte> -> nat, firstId: nat)
    returns (ssts: seq<Sst>, ids: seq<nat>, nextId: nat, ghost tables: seq<seq<Entry>>, ghost dropped: seq<Entry>)
    requires ConfigOk(config) && Ascending(ps) && forall p :: p in ps ==> p.0 != []
    ensures AllWritten(ssts, tables, config.blockSize, hash) && KeysApart(tables)
    ensures |ids| == |ssts| && nextId == firstId + |ids| && forall i :: 0 <= i < |ids| ==> ids[i] == firstId + i
    ensures Flatten(tables) + dropped == Zeroed(ps)
    ensures var c := CutStream(ps, target, config.blockSize, hash);
      tables == FilesOf(c, config.blockSize) && dropped == DroppedOf(c, config.blockSize)
  {
    hide S.SSTBuilder.Valid, WrittenOk, Finished, Flatten, KeysApart, CutStream, BlockSize;
    var b;
    ssts, ids, nextId, b, tables := GenFull(ps, target, config, hash, firstId);
    ghost var tail := b.added;
    CutStreamExact(ps, target, config.blockSize, hash);
    LostWhen(ps, target, config.blockSize, hash);
    var size := SizeOf(b);
    if size > 0 {
      PartSorted(ps, tables, tail);
      NothingFinished(config.blockSize, hash);
      var sst := CloseFile(b);
      FlattenSnoc(tables, tail);
      ssts, ids, tables := ssts + [sst], ids + [nextId], tables + [tail];
      nextId := nextId + 1;
      dropped := [];
    } else {
      dropped := tail;
    }
    StreamApart(ps, tables, dropped);
  }

  lemma NothingFinished(blockSize: nat, hash: seq<byte> -> nat)
    ensures Finished([], blockSize, hash) == 0
  {
  }

  /** A stream of one pair, with any target but 0: no file is written, and the pair is gone. */
  method OnePairLost(p: Pair, target: nat, config: Config, hash: seq<byte> -> nat, firstId: nat)
    returns (ssts: seq<Sst>, ghost dropped: seq<Entry>)
    requires ConfigOk(config) && p.0 != [] && target > 0
    ensures ssts == [] && dropped == [Entry(p.0, p.1, 0)]
  {
    hide Finished, BlockSize, S.TableFits, WrittenOk;
    var ids, nextId;
    ghost var tables;
    CutOne(p, target, config.blockSize, hash);
    ssts, ids, nextId, tables, dropped := GenFiles([p], target, config, hash, firstId);
  }

  lemma CutOne(p: Pair, target: nat, blockSize: nat, hash: seq<byte> -> nat)
    requires target > 0
    ensures CutStream([p], target, blockSize, hash) == StreamCut([], [Entry(p.0, p.1, 0)])
  {
    var es := [] + [Entry(p.0, p.1, 0)];
    assert es == [Entry(p.0, p.1, 0)];
    assert CutAll(es[..0], blockSize) == Cut([], []);
    assert Finished(es, blockSize, hash) == 0;
  }

  /** The loop: files closed at the target size, and the builder left over. */
  method GenFull(ps: seq<Pair>, target: nat, config: Config, hash: seq<byte> -> nat, firstId: nat)
    returns (ssts: seq<Sst>, ids: seq<nat>, nextId: nat, b: S.SSTBuilder, ghost tables: seq<seq<Entry>>)
    requires ConfigOk(config) && Ascending(ps) && forall p :: p in ps ==> p.0 != []
    ensures fresh(b) && b.Valid() && b.capacity == config.blockSize && b.hash == hash
    ensures
      && AllWritten(ssts, tables, config.blockSize, hash)
      && CutStream(ps, target, config.blockSize, hash) == StreamCut(tables, b.added)
    ensures |ids| == |ssts| && nextId == firstId + |ids| && forall j :: 0 <= j < |ids| ==> ids[j] == firstId + j
  {
    hide S.SSTBuilder.Valid, WrittenOk, Finished, Flatten, KeysApart, CutStream, Zeroed, FirstFull;
    ssts, ids, tables := [], [], [];
    nextId := firstId;
    b := NewBuilder(config, hash);
    CutNone(target, config.blockSize, hash);
    for i := 0 to |ps|
      invariant
        && fresh(b) && fresh(b.block) && (b.bloom != null ==> fresh(b.bloom)) && b.Valid()
        && b.capacity == config.blockSize && b.hash == hash
      invariant
        && AllWritten(ssts, tables, config.blockSize, hash)
        && CutStream(ps[..i], target, config.blockSize, hash) == StreamCut(tables, b.added)
      invariant |ids| == |ssts| && nextId == firstId + |ids| && forall j :: 0 <= j < |ids| ==> ids[j] == firstId + j
    {
      CutNext(ps, i, target, config.blockSize, hash);
      NextSorted(ps, i, target, config.blockSize, hash);
      b.Add(ps[i].0, ps[i].1, 0);
      var size := SizeOf(b);
      if size >= target {
        ghost var es := b.added;
        var sst := CloseFile(b);
        ssts, ids, tables := ssts + [sst], ids + [nextId], tables + [es];
        nextId := nextId + 1;
        b := NewBuilder(config, hash);
      }
    }
    assert ps[..|ps|] == ps;
  }

  lemma NothingYet()
    ensures Flatten([]) + [] == Zeroed([])
  {
  }

  method SizeOf(b: S.SSTBuilder) returns (n: nat)
    requires b.Valid()
    ensures n == Finished(b.added, b.capacity, b.hash)
  {
    n := b.EstimatedSize();
  }

  lemma AddedNext(ps: seq<Pair>, i: nat, tables: seq<seq<Entry>>, before: seq<Entry>, after: seq<Entry>)
    requires i < |ps| && Flatten(tables) + before == Zeroed(ps[..i]) && after == before + [Entry(ps[i].0, ps[i].1, 0)]
    ensures Flatten(tables) + after == Zeroed(ps[..i + 1])
  {
    hide Flatten;
    assert Flatten(tables) + after == Zeroed(ps[..i]) + [Entry(ps[i].0, ps[i].1, 0)];
  }

  lemma PartSorted(ps: seq<Pair>, tables: seq<seq<Entry>>, es: seq<Entry>)
    requires Ascending(ps) && Flatten(tables) + es == Zeroed(ps)
    ensures Sorted(es)
  {
    ZeroedSorted(ps);
    SortedSuffix(Flatten(tables), es);
  }

  lemma NextSorted(ps: seq<Pair>, i: nat, target: nat, blockSize: nat, hash: seq<byte> -> nat)
    requires Ascending(ps) && i < |ps|
    ensures Sorted(CutStream(ps[..i], target, blockSize, hash).tail + [Entry(ps[i].0, ps[i].1, 0)])
  {
    hide CutStream, Flatten, Finished;
    var c := CutStream(ps[..i], target, blockSize, hash);
    var es := c.tail + [Entry(ps[i].0, ps[i].1, 0)];
    CutStreamExact(ps[..i], target, blockSize, hash);
    AddedNext(ps, i, c.full, c.tail, es);
    PartSorted(ps[..i + 1], c.full, es);
  }

  /** The generated files, and their blocks, by id from the first one on. */
  function Numbered<T>(xs: seq<T>, firstId: nat): (m: map<nat, T>)
    ensures forall id :: id in m <==> firstId <= id < firstId + |xs|
    ensures forall i :: 0 <= i < |xs| ==> m[firstId + i] == xs[i]
  {
    if xs == [] then map[] else Numbered(xs[..|xs| - 1], firstId)[firstId + |xs| - 1 := xs[|xs| - 1]]
  }

  function Blocked(tables: seq<seq<Entry>>, blockSize: nat): (bs: seq<seq<seq<Entry>>>)
    ensures |bs| == |tables| && forall i :: 0 <= i < |tables| ==> bs[i] == Closed(CutAll(tables[i], blockSize))
  {
    seq(|tables|, i requires 0 <= i < |tables| => Closed(CutAll(tables[i], blockSize)))
  }

  ghost predicate AllFit(tables: seq<seq<Entry>>, blockSize: nat, hash: seq<byte> -> nat) {
    forall i :: 0 <= i < |tables| ==> S.TableFits(tables[i], blockSize, hash)
  }

  /** If their tables fit the format, generated files form a level, whose table is theirs in order. */
  lemma GeneratedLevel(ssts: seq<Sst>, tables: seq<seq<Entry>>, ids: seq<nat>, firstId: nat, blockSize: nat,
      hash: seq<byte> -> nat)
    requires AllWritten(ssts, tables, blockSize, hash) && KeysApart(tables) && AllFit(tables, blockSize, hash)
    requires |ids| == |ssts| && forall i :: 0 <= i < |ids| ==> ids[i] == firstId + i
    ensures var parts := Numbered(Blocked(tables, blockSize), firstId);
      LevelOk(Numbered(ssts, firstId), parts, hash, ids) && LevelTable(parts, ids) == Flatten(tables)
  {
    hide S.Stores, S.TableFits, KeysApart, Flatten, CutAll, Closed, Numbered, Blocked;
    var files, parts := Numbered(ssts, firstId), Numbered(Blocked(tables, blockSize), firstId);
    forall i | 0 <= i < |ids|
      ensures FileOk(files, parts, hash, ids[i]) && TableOf(parts, ids[i]) == tables[i]
    {
      assert WrittenOk(ssts[i], tables[i], blockSize, hash);
      assert ids[i] == firstId + i && files[ids[i]] == ssts[i] && parts[ids[i]] == Closed(CutAll(tables[i], blockSize));
    }
    assert FileTables(parts, ids) == tables;
  }

  /** Searching the level generated from a stream finds what the stream has for the key, less the lost tail. */
  method SearchGenerated(ps: seq<Pair>, target: nat, config: Config, hash: seq<byte> -> nat, firstId: nat, key: Key,
      t: nat)
    returns (r: Option<Value>)
    requires ConfigOk(config) && Ascending(ps) && forall p :: p in ps ==> p.0 != []
    requires AllFit(FilesOf(CutStream(ps, target, config.blockSize, hash), config.blockSize), config.blockSize, hash)
    ensures r == ValueOf(Lookup(Flatten(FilesOf(CutStream(ps, target, config.blockSize, hash), config.blockSize)),
        key, t))
  {
    hide AllFit, KeysApart, Flatten, CutStream, FilesOf, Zeroed, AllWritten, LevelOk, LevelTable, Legible, Lookup,
      Numbered, Blocked;
    var ssts, ids, nextId;
    ghost var tables, dropped;
    ssts, ids, nextId, tables, dropped := GenFiles(ps, target, config, hash, firstId);
    GeneratedLevel(ssts, tables, ids, firstId, config.blockSize, hash);
    ZeroLegible(ps, Flatten(tables), dropped, key, t);
    r := LevelGet(Numbered(ssts, firstId), ids, key, t, hash, Numbered(Blocked(tables, config.blockSize), firstId));
  }

  lemma ZeroLegible(ps: seq<Pair>, es: seq<Entry>, rest: seq<Entry>, key: Key, t: nat)
    requires es + rest == Zeroed(ps)
    ensures Legible(es, key, t)
  {
    forall i | 0 <= i < |es|
      ensures es[i].tid == 0
    {
      assert es[i] == Zeroed(ps)[i];
    }
  }

  lemma StreamApart(ps: seq<Pair>, tables: seq<seq<Entry>>, dropped: seq<Entry>)
    requires Ascending(ps) && Flatten(tables) + dropped == Zeroed(ps)
    ensures KeysApart(tables)
  {
    ZeroedSorted(ps);
    forall i, j | 0 <= i < j < |ps|
      ensures Zeroed(ps)[i].key != Zeroed(ps)[j].key
    {
      LessIrreflexive(ps[i].0);
    }
    CutsApart(tables, dropped);
  }
}
