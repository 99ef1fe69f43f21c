/** The storage engine: memtable, overlapping level-0 files, and sorted levels below. */
module Engines {
  import opened Keys
  import opened Versions
  import opened Blocks
  import opened BlockSearch
  import opened BlockMetas
  import opened Bloom
  import opened Cutting
  import opened SstFile
  import opened MemTables
  import opened Layers
  import S = Ssts

  /** The blocks of every table file, by id. */
  type Parts = map<nat, seq<seq<Entry>>>

  /** File id holds the blocks parts[id]. */
  ghost predicate FileOk(ssts: map<nat, Sst>, parts: Parts, hash: seq<byte> -> nat, id: nat) {
    id in ssts && id in parts && S.Stores(ssts[id], parts[id], hash)
  }

  ghost predicate FilesOk(ssts: map<nat, Sst>, parts: Parts, hash: seq<byte> -> nat, ids: seq<nat>) {
    forall i :: 0 <= i < |ids| ==> FileOk(ssts, parts, hash, ids[i])
  }

  /** The table of file id. */
  ghost function TableOf(parts: Parts, id: nat): seq<Entry> {
    if id in parts then Flatten(parts[id]) else []
  }

  /** Level 0: one table per file, newest first. */
  ghost function FileTables(parts: Parts, ids: seq<nat>): (ts: seq<seq<Entry>>)
    ensures |ts| == |ids| && forall i :: 0 <= i < |ids| ==> ts[i] == TableOf(parts, ids[i])
  {
    seq(|ids|, i requires 0 <= i < |ids| => TableOf(parts, ids[i]))
  }

  /** A lower level: its files one after another form one table. */
  ghost function LevelTable(parts: Parts, ids: seq<nat>): seq<Entry> {
    Flatten(FileTables(parts, ids))
  }

  ghost function LevelTables(parts: Parts, levels: seq<seq<nat>>): (ts: seq<seq<Entry>>)
    ensures |ts| == |levels| && forall i :: 0 <= i < |levels| ==> ts[i] == LevelTable(parts, levels[i])
  {
    seq(|levels|, i requires 0 <= i < |levels| => LevelTable(parts, levels[i]))
  }

  /** The files of a level have ascending, disjoint key ranges. */
  ghost predicate LevelOk(ssts: map<nat, Sst>, parts: Parts, hash: seq<byte> -> nat, ids: seq<nat>) {
    FilesOk(ssts, parts, hash, ids) && KeysApart(FileTables(parts, ids))
  }

  ghost predicate LevelsOk(ssts: map<nat, Sst>, parts: Parts, hash: seq<byte> -> nat, levels: seq<seq<nat>>) {
    forall i :: 0 <= i < |levels| ==> LevelOk(ssts, parts, hash, levels[i])
  }

  /** Reading ids of k through 16 bits does not change which of them t may see. */
  ghost predicate LegibleStore(store: Store, k: Key, t: nat) {
    t == 0 || forall i :: (k, i) in store ==> (i % U16 <= t <==> i <= t)
  }

  /** So it is for every t when all ids of k are narrow, and for every t that none of them exceeds. */
  lemma LegibleReads(store: Store, k: Key, t: nat)
    ensures (forall i :: (k, i) in store ==> i < U16) ==> LegibleStore(store, k, t)
    ensures (forall i :: (k, i) in store ==> i <= t) ==> LegibleStore(store, k, t)
  {
  }

  /** The first and the last key of a file occur in it, and it holds nothing outside them. */
  lemma FileEnds(sst: Sst, bs: seq<seq<Entry>>, hash: seq<byte> -> nat)
    requires S.Stores(sst, bs, hash)
    ensures exists e :: e in Flatten(bs) && e.key == sst.first
    ensures exists e :: e in Flatten(bs) && e.key == sst.last
  {
    hide KeysBelow;
    var n := |bs| - 1;
    InFlatten(bs, 0);
    InFlatten(bs, n);
    assert bs[0][0] in bs[0] && Last(bs[n]) in bs[n];
  }

  lemma FileOutside(sst: Sst, bs: seq<seq<Entry>>, hash: seq<byte> -> nat, k: Key)
    requires S.Stores(sst, bs, hash) && (Less(k, sst.first) || Less(sst.last, k))
    ensures forall e :: e in Flatten(bs) ==> e.key != k
  {
    hide KeysBelow;
    S.OutOfRange(sst, bs, k, 0, hash);
    LookupPosition(Flatten(bs), k, 0);
  }

  /** The key range of every file, in the form the block search uses. */
  function Ranges(ssts: map<nat, Sst>, ids: seq<nat>): (ms: seq<Meta>)
    requires forall i :: 0 <= i < |ids| ==> ids[i] in ssts
    ensures |ms| == |ids| && forall i :: 0 <= i < |ids| ==> ms[i] == Meta(0, ssts[ids[i]].first, ssts[ids[i]].last)
  {
    seq(|ids|, i requires 0 <= i < |ids| => Meta(0, ssts[ids[i]].first, ssts[ids[i]].last))
  }

  lemma LevelRanges(ssts: map<nat, Sst>, parts: Parts, hash: seq<byte> -> nat, ids: seq<nat>)
    requires LevelOk(ssts, parts, hash, ids)
    ensures (forall i :: 0 <= i < |ids| ==> ids[i] in ssts) && S.MetasAscend(Ranges(ssts, ids))
    ensures forall i, e: Entry, k ::
      0 <= i < |ids| && e in FileTables(parts, ids)[i] && S.Outside(Ranges(ssts, ids)[i], k) ==> e.key != k
  {
    hide S.Stores;
    assert forall i :: 0 <= i < |ids| ==> FileOk(ssts, parts, hash, ids[i]);
    var ms, ts := Ranges(ssts, ids), FileTables(parts, ids);
    forall i, k | 0 <= i < |ids| && S.Outside(ms[i], k)
      ensures forall e: Entry :: e in ts[i] ==> e.key != k
    {
      assert FileOk(ssts, parts, hash, ids[i]);
      RangeOutside(ssts, parts, hash, ids[i], k);
    }
    forall i | 0 <= i < |ids|
      ensures !Less(ms[i].last, ms[i].first)
    {
      assert FileOk(ssts, parts, hash, ids[i]);
      RangeEnds(ssts, parts, hash, ids[i]);
      var m := ms[i];
      var e: Entry :| e in ts[i] && e.key == m.first;
      assert S.Outside(m, m.first) ==> e.key != m.first;
    }
    forall i, j | 0 <= i < j < |ids|
      ensures Less(ms[i].last, ms[j].first)
    {
      assert FileOk(ssts, parts, hash, ids[i]) && FileOk(ssts, parts, hash, ids[j]);
      RangeEnds(ssts, parts, hash, ids[i]);
      RangeEnds(ssts, parts, hash, ids[j]);
      assert KeysBelow(ts[i], ts[j]);
    }
  }

  lemma RangeOutside(ssts: map<nat, Sst>, parts: Parts, hash: seq<byte> -> nat, id: nat, k: Key)
    requires FileOk(ssts, parts, hash, id) && (Less(k, ssts[id].first) || Less(ssts[id].last, k))
    ensures forall e :: e in TableOf(parts, id) ==> e.key != k
  {
    FileOutside(ssts[id], parts[id], hash, k);
  }

  lemma RangeEnds(ssts: map<nat, Sst>, parts: Parts, hash: seq<byte> -> nat, id: nat)
    requires FileOk(ssts, parts, hash, id)
    ensures exists e :: e in TableOf(parts, id) && e.key == ssts[id].first
    ensures exists e :: e in TableOf(parts, id) && e.key == ssts[id].last
  {
    FileEnds(ssts[id], parts[id], hash);
  }

  /** Point lookup in one file. */
  method FileGet(ssts: map<nat, Sst>, id: nat, key: Key, t: nat, hash: seq<byte> -> nat, ghost parts: Parts)
    returns (r: Option<Value>)
    requires FileOk(ssts, parts, hash, id)
    ensures Finds(TableOf(parts, id), key, t, r)
  {
    r := S.Get(ssts[id], key, t, hash, parts[id]);
  }

  /** Binary search over the files of a level finds what a scan of the whole level finds. */
  method LevelGet(ssts: map<nat, Sst>, ids: seq<nat>, key: Key, t: nat, hash: seq<byte> -> nat, ghost parts: Parts)
    returns (r: Option<Value>)
    requires LevelOk(ssts, parts, hash, ids)
    ensures Finds(LevelTable(parts, ids), key, t, r)
    ensures Legible(LevelTable(parts, ids), key, t) ==> r == ValueOf(Lookup(LevelTable(parts, ids), key, t))
  {
    LevelRanges(ssts, parts, hash, ids);
    hide FileOk, KeysBelow, Legible, TooNew;
    ghost var ms, ts := Ranges(ssts, ids), FileTables(parts, ids);
    var left, right := 0, |ids|;
    while left < right
      invariant 0 <= left <= right <= |ids|
      invariant forall j :: 0 <= j < left ==> Less(ms[j].last, key)
      invariant forall j :: right <= j < |ids| ==> Less(key, ms[j].first)
    {
      var mid := left + (right - left) / 2;
      var sst := ssts[ids[mid]];
      if !Less(key, sst.first) && !Less(sst.last, key) {
        S.AroundBlock(ms, key, mid);
        LevelOnly(ts, ms, mid, key, t);
        r := FileGet(ssts, ids[mid], key, t, hash, parts);
        S.NewInBlock(ts, mid, key, t, r);
        FindsLegible(Flatten(ts), key, t, r);
        return;
      } else if Less(sst.last, key) {
        S.LeftOf(ms, key, mid);
        left := mid + 1;
      } else {
        S.RightOf(ms, key, mid);
        right := mid;
      }
    }
    LevelNone(ts, ms, key, t);
    return None;
  }

  lemma LevelOnly(ts: seq<seq<Entry>>, ms: seq<Meta>, i: nat, key: Key, t: nat)
    requires i < |ts| == |ms| && (forall j :: 0 <= j < |ms| && j != i ==> S.Outside(ms[j], key))
    requires forall j, e, k :: 0 <= j < |ts| && e in ts[j] && S.Outside(ms[j], k) ==> e.key != k
    ensures Lookup(Flatten(ts), key, t) == Lookup(ts[i], key, t)
  {
    forall j, e | 0 <= j < |ts| && j != i && e in ts[j]
      ensures e.key != key
    {
      assert S.Outside(ms[j], key);
    }
    LookupInBlock(ts, i, key, t);
  }

  lemma LevelNone(ts: seq<seq<Entry>>, ms: seq<Meta>, key: Key, t: nat)
    requires |ts| == |ms| && (forall j :: 0 <= j < |ms| ==> S.Outside(ms[j], key))
    requires forall j, e, k :: 0 <= j < |ts| && e in ts[j] && S.Outside(ms[j], k) ==> e.key != k
    ensures Lookup(Flatten(ts), key, t) == None
  {
    forall j, e | 0 <= j < |ts| && e in ts[j]
      ensures e.key != key
    {
      assert S.Outside(ms[j], key);
    }
    LookupNowhere(ts, key, t);
  }

  /** Sizes and limits the engine is run with. */
  datatype Config = Config(maxLevel: nat, perMemLimit: nat, totalLimit: nat, blockSize: nat, levelRatio: nat,
                           bloomExpected: nat, bloomRate: seq<byte>, bloomBits: nat, bloomHashes: nat)

  predicate ConfigOk(c: Config) {
    && c.maxLevel > 0 && c.bloomExpected < U64 && |c.bloomRate| == 8 && 0 < c.bloomBits && c.bloomBits + 7 < U64
    && c.bloomHashes < U64
  }

  class Engine {
    const config: Config
    const hash: seq<byte> -> nat
    const memtable: MemTable
    var ssts: map<nat, Sst>
    var level0: seq<nat>
    var levels: seq<seq<nat>>
    var nextId: nat
    ghost var parts: Parts
    ghost var store: Store

    /** All tables, newest first: memory, level 0, lower levels. */
    ghost function OnDisk(): seq<seq<Entry>>
      reads `parts, `level0, `levels
    {
      FileTables(parts, level0) + LevelTables(parts, levels)
    }

    ghost predicate FilesValid()
      reads `ssts, `parts, `level0, `levels, `nextId
    {
      && FilesOk(ssts, parts, hash, level0) && LevelsOk(ssts, parts, hash, levels)
      && (forall id :: id in parts || id in ssts ==> id < nextId)
    }

    ghost predicate MemValid()
      reads memtable, memtable.current, memtable.current.nodes, memtable.cold
    {
      && ConfigOk(config) && memtable.Valid() && this !in memtable.Repr()
      && memtable.maxLevel == config.maxLevel && memtable.perMemLimit == config.perMemLimit
    }

    ghost predicate Valid()
      reads this, memtable, memtable.current, memtable.current.nodes, memtable.cold
    {
      && MemValid() && FilesValid() && Good(memtable.Tables() + OnDisk(), store)
      && MemOk(memtable.Tables())
    }

    constructor (config: Config, hash: seq<byte> -> nat)
      requires ConfigOk(config)
      ensures Valid() && store == map[] && fresh(memtable.Repr()) && this.config == config && this.hash == hash
    {
      hide MemTable.Valid, MemTable.Tables, Good;
      this.config, this.hash := config, hash;
      memtable := new MemTable(config.maxLevel, config.perMemLimit);
      ssts, level0, levels, nextId := map[], [], [], 0;
      parts, store := map[], map[];
      new;
      assert this !in memtable.Repr();
      NothingGood();
      assert memtable.Tables() + OnDisk() == [[]];
    }

    /** If anything is in memory, level 0 has room for another file, and the oldest table fits one. */
    ghost predicate Room(mem: seq<seq<Entry>>)
      reads this
    {
      TotalBytes(mem) > 0 ==> |level0| < config.levelRatio && CanFlush(mem, config.blockSize, hash)
    }

    /** Writes a version; no version of the key may be newer.  If memory has become too large,
        the oldest table is written to level 0 (which must have room). */
    method Put(key: Key, value: Value, tid: nat, draw: nat, bits: seq<bool>) returns (flushed: nat)
      requires Valid() && key != [] && NotBelow(store, key, tid)
      requires 1 <= draw <= config.maxLevel && |bits| >= config.maxLevel
      requires var mem := AfterPut(memtable.Tables(), Entry(key, value, tid), config.perMemLimit);
        TotalBytes(mem) >= config.totalLimit ==> Room(mem)
      modifies this, memtable, memtable.current, memtable.current.nodes
      ensures Valid() && fresh(memtable.Repr() - old(memtable.Repr()))
      ensures store == old(store)[(key, tid) := value]
      ensures Written(AfterPut(old(memtable.Tables()), Entry(key, value, tid), config.perMemLimit), memtable.Tables(),
          old(level0), level0, old(nextId), config.totalLimit, flushed)
      ensures var size := TotalBytes(AfterPut(old(memtable.Tables()), Entry(key, value, tid), config.perMemLimit));
        |level0| == |old(level0)| + (if size > 0 && size >= config.totalLimit then 1 else 0)
    {
      hide Valid, MemTable.Valid, MemTable.Tables, CanFlush, FlushView, S.MaxId, TotalBytes;
      PutMem(key, value, tid, draw, bits);
      var size := memtable.TotalSize();
      if size >= config.totalLimit {
        flushed := Flush();
      } else {
        flushed := 0;
      }
    }

    method PutMem(key: Key, value: Value, tid: nat, draw: nat, bits: seq<bool>)
      requires
        && Valid() && key != [] && NotBelow(store, key, tid) && 1 <= draw <= config.maxLevel
        && |bits| >= config.maxLevel
      modifies `store, memtable, memtable.current, memtable.current.nodes
      ensures
        && Valid() && memtable.Valid() && fresh(memtable.Repr() - old(memtable.Repr()))
        && store == old(store)[(key, tid) := value]
      ensures memtable.Tables() == AfterPut(old(memtable.Tables()), Entry(key, value, tid), config.perMemLimit)
    {
      hide MemTable.Valid, MemTable.Tables, Good, FilesValid, MemOk;
      ghost var mem, e := memtable.Tables(), Entry(key, value, tid);
      PutGood(mem, OnDisk(), e, config.perMemLimit, store);
      PutMemOk(mem, e, config.perMemLimit);
      memtable.Put(key, value, tid, draw, bits);
      store := store[(key, tid) := value];
    }

    /** A deletion writes the empty value. */
    method Remove(key: Key, tid: nat, draw: nat, bits: seq<bool>) returns (flushed: nat)
      requires Valid() && key != [] && NotBelow(store, key, tid)
      requires 1 <= draw <= config.maxLevel && |bits| >= config.maxLevel
      requires var mem := AfterPut(memtable.Tables(), Entry(key, [], tid), config.perMemLimit);
        TotalBytes(mem) >= config.totalLimit ==> Room(mem)
      modifies this, memtable, memtable.current, memtable.current.nodes
      ensures Valid() && fresh(memtable.Repr() - old(memtable.Repr()))
      ensures store == old(store)[(key, tid) := []]
      ensures Written(AfterPut(old(memtable.Tables()), Entry(key, [], tid), config.perMemLimit), memtable.Tables(),
          old(level0), level0, old(nextId), config.totalLimit, flushed)
    {
      flushed := Put(key, [], tid, draw, bits);
    }

    /** Writes the oldest table in memory to a new level-0 file; returns its largest id. */
    method Flush() returns (flushed: nat)
      requires Valid() && Room(memtable.Tables())
      modifies this, memtable
      ensures Valid() && fresh(memtable.Repr() - old(memtable.Repr())) && store == old(store)
      ensures TotalBytes(old(memtable.Tables())) == 0 ==>
        flushed == 0 && unchanged(this) && memtable.Tables() == old(memtable.Tables())
      ensures TotalBytes(old(memtable.Tables())) > 0 ==>
        && level0 == [old(nextId)] + old(level0) && nextId == old(nextId) + 1
        && var v := FlushView(old(memtable.Tables()));
          && memtable.Tables() == v[..|v| - 1] && flushed == S.MaxId(v[|v| - 1])
          && TableOf(parts, old(nextId)) == v[|v| - 1]
    {
      hide MemTable.Valid, MemTable.Tables, Good, FilesValid, OnDisk, MemOk, S.MaxId, S.TableFits, FlushView,
        TotalBytes, Sorted, S.KeysNonEmpty, FileHolds;
      var size := memtable.TotalSize();
      if size == 0 {
        return 0;
      }
      ghost var mem := memtable.Tables();
      OldestOk(mem, OnDisk(), store, config.blockSize, hash);
      var data := memtable.FlushLast();
      FlushGood(mem, OnDisk(), store);
      var sst := WriteFile(data.value);
      AddFile(sst, data.value);
      flushed := sst.maxId;
    }

    /** Builds the file of a table. */
    method WriteFile(es: seq<Entry>) returns (sst: Sst)
      requires
        && ConfigOk(config) && es != [] && Sorted(es) && S.KeysNonEmpty(es) && S.TableFits(es, config.blockSize, hash)
      ensures FileHolds(sst, es, config.blockSize, hash) && sst.maxId == S.MaxId(es)
    {
      hide S.Stores, S.TableFits, S.KeysNonEmpty, S.MaxId, Sorted;
      var bloom := new BloomFilter(hash, config.bloomExpected, config.bloomRate, config.bloomBits, config.bloomHashes);
      var builder := new S.SSTBuilder(config.blockSize, bloom, hash);
      var r := S.BuildTable(builder, es);
      sst := r.value;
    }

    /** Registers a new level-0 file. */
    method AddFile(sst: Sst, ghost es: seq<Entry>)
      requires FilesValid() && FileHolds(sst, es, config.blockSize, hash)
      modifies `ssts, `level0, `nextId, `parts
      ensures FilesValid() && level0 == [old(nextId)] + old(level0) && nextId == old(nextId) + 1
      ensures OnDisk() == [es] + old(OnDisk()) && TableOf(parts, old(nextId)) == es
    {
      hide FilesOk, LevelsOk, FileTables, LevelTables, TableOf, FileHolds, CutAll, Closed;
      ghost var bs := Closed(CutAll(es, config.blockSize));
      FileAdded(ssts, parts, hash, level0, levels, nextId, sst, es, config.blockSize);
      ssts := ssts[nextId := sst];
      parts := parts[nextId := bs];
      level0 := [nextId] + level0;
      nextId := nextId + 1;
    }

    /** Point lookup through all layers.  The answer is the newest visible version's value, or
        nothing if there is none or it is a deletion; or else it is that of a version too new for t
        whose narrowed id is not, which cannot be when the ids of key are legible at t. */
    method Get(key: Key, t: nat) returns (r: Option<Value>)
      requires Valid()
      ensures Answers(store, key, t, r) || NewAnswer(OnDisk(), key, t, r)
      ensures LegibleStore(store, key, t) ==> Answers(store, key, t, r)
    {
      hide MemTable.Valid, Good, FilesOk, LevelsOk;
      ghost var mem, l0, low := memtable.Tables(), FileTables(parts, level0), LevelTables(parts, levels);
      ghost var all := mem + (l0 + low);
      GoodAnswers(all, store, key, t);
      FirstMatchConcat(mem, l0 + low, key, t);
      var m := memtable.Get(key, t);
      if m.Some? {
        return if m.value.value != [] then Some(m.value.value) else None;
      }
      var f := Level0Get(key, t);
      if f.None? {
        f := LowerGet(key, t);
      }
      FindsShown(l0, low, key, t, f);
      r := if f.Some? && f.value != [] then f else None;
      if LegibleStore(store, key, t) {
        NoneNew(mem, l0 + low, store, key, t, r);
      }
    }

    /** Level 0: the newest file with a visible version decides. */
    method Level0Get(key: Key, t: nat) returns (r: Option<Value>)
      requires FilesOk(ssts, parts, hash, level0)
      ensures FindsIn(FileTables(parts, level0), key, t, r)
    {
      hide FileOk, TooNew, Lookup, FirstMatch;
      ghost var ts := FileTables(parts, level0);
      assert ts[0..] == ts;
      for i := 0 to |level0|
        invariant FirstMatch(ts, key, t) == FirstMatch(ts[i..], key, t)
      {
        assert FileOk(ssts, parts, hash, level0[i]) && ts[i] == TableOf(parts, level0[i]);
        FirstMatchStep(ts, i, key, t);
        r := FileGet(ssts, level0[i], key, t, hash, parts);
        if r.Some? {
          return;
        }
      }
      FirstMatchNone(ts[|level0|..], key, t);
      return None;
    }

    /** The lower levels, from the top one down. */
    method LowerGet(key: Key, t: nat) returns (r: Option<Value>)
      requires LevelsOk(ssts, parts, hash, levels)
      ensures FindsIn(LevelTables(parts, levels), key, t, r)
    {
      hide LevelOk, TooNew, Lookup, FirstMatch, LevelTable;
      ghost var ts := LevelTables(parts, levels);
      assert ts[0..] == ts;
      for i := 0 to |levels|
        invariant FirstMatch(ts, key, t) == FirstMatch(ts[i..], key, t)
      {
        assert LevelOk(ssts, parts, hash, levels[i]) && ts[i] == LevelTable(parts, levels[i]);
        FirstMatchStep(ts, i, key, t);
        r := LevelGet(ssts, levels[i], key, t, hash, parts);
        if r.Some? {
          return;
        }
      }
      FirstMatchNone(ts[|levels|..], key, t);
      return None;
    }
  }

  /** r is what first match over the tables finds, or the value of a version too new for t. */
  ghost predicate FindsIn(ts: seq<seq<Entry>>, key: Key, t: nat, r: Option<Value>) {
    r == ValueOf(FirstMatch(ts, key, t)) || (r.Some? && exists i :: 0 <= i < |ts| && TooNew(ts[i], key, t, r.value))
  }

  /** r shows a version in one of the tables that is too new for t, but whose narrowed id is not. */
  ghost predicate NewAnswer(ts: seq<seq<Entry>>, key: Key, t: nat, r: Option<Value>) {
    exists i, v :: 0 <= i < |ts| && TooNew(ts[i], key, t, v) && r == if v != [] then Some(v) else None
  }

  /** Keys are not empty, and no frozen table is. */
  ghost predicate MemOk(ts: seq<seq<Entry>>) {
    && ts != [] && (forall i :: 0 <= i < |ts| ==> S.KeysNonEmpty(ts[i])) && (forall i :: 0 < i < |ts| ==> ts[i] != [])
  }

  /** The file holds the table es, cut into blocks. */
  ghost predicate FileHolds(sst: Sst, es: seq<Entry>, blockSize: nat, hash: seq<byte> -> nat) {
    var bs := Closed(CutAll(es, blockSize));
    Flatten(bs) == es && S.Stores(sst, bs, hash)
  }

  /** A write is followed by a flush of the oldest table exactly when memory has reached its limit. */
  ghost predicate Written(mem: seq<seq<Entry>>, mem': seq<seq<Entry>>, ids: seq<nat>, ids': seq<nat>, id: nat,
      limit: nat, flushed: nat) {
    mem != [] &&
    if TotalBytes(mem) >= limit && TotalBytes(mem) > 0 then
      ids' == [id] + ids && var v := FlushView(mem); mem' == v[..|v| - 1] && flushed == S.MaxId(v[|v| - 1])
    else ids' == ids && mem' == mem && flushed == 0
  }

  /** The oldest table in memory fits the file format. */
  ghost predicate CanFlush(ts: seq<seq<Entry>>, blockSize: nat, hash: seq<byte> -> nat) {
    ts != [] && var v := FlushView(ts); S.TableFits(v[|v| - 1], blockSize, hash)
  }

  /** After any run of writes with rising ids, whatever was frozen or flushed meanwhile, a read with
      legible ids finds the last write to the key that it may see, and nothing if that was a deletion;
      any other read that does not shows a version too new for it. */
  method GetLast(engine: Engine, key: Key, t: nat, ghost ws: seq<Entry>) returns (r: Option<Value>)
    requires engine.Valid() && Rising(ws) && engine.store == Replay(ws)
    ensures r == Shown(LastWrite(ws, key, t)) || NewAnswer(engine.OnDisk(), key, t, r)
    ensures LegibleStore(engine.store, key, t) ==> r == Shown(LastWrite(ws, key, t)) && ShowsLast(ws, key, t, r)
  {
    hide Engine.Valid, LegibleStore, NewAnswer, ShowsLast;
    LastWriteMeaning(ws, key, t);
    r := engine.Get(key, t);
    if Answers(engine.store, key, t, r) {
      AnswerIsLastWrite(ws, key, t, r);
    }
  }

  /** A read without a transaction takes an id above all written ones, and needs nothing else. */
  method GetNewest(engine: Engine, key: Key, t: nat, ghost ws: seq<Entry>) returns (r: Option<Value>)
    requires
      && engine.Valid() && Rising(ws) && engine.store == Replay(ws)
      && forall i :: 0 <= i < |ws| ==> ws[i].tid <= t
    ensures r == Shown(LastWrite(ws, key, t)) && ShowsLast(ws, key, 0, r)
  {
    hide Engine.Valid, ShowsLast, LastWrite;
    forall i | (key, i) in engine.store
      ensures i <= t
    {
      ReplayHas(ws, key, i);
    }
    LegibleReads(engine.store, key, t);
    r := GetLast(engine, key, t, ws);
    AllSeenLast(ws, key, t, r);
  }

  lemma AllSeenLast(ws: seq<Entry>, k: Key, t: nat, r: Option<Value>)
    requires forall i :: 0 <= i < |ws| ==> ws[i].tid <= t
    ensures ShowsLast(ws, k, t, r) ==> ShowsLast(ws, k, 0, r)
  {
    assert forall i :: LastAt(ws, k, t, i) <==> LastAt(ws, k, 0, i);
  }

  lemma PutMemOk(ts: seq<seq<Entry>>, e: Entry, limit: nat)
    requires MemOk(ts) && e.key != []
    ensures MemOk(AfterPut(ts, e, limit))
  {
    var w := [PutSorted(ts[0], e)] + ts[1..];
    forall x | x in PutSorted(ts[0], e)
      ensures x.key != []
    {
      PutSortedMember(ts[0], e, x);
    }
    PutSortedMember(ts[0], e, e);
    assert forall i :: 0 < i < |w| ==> w[i] == ts[i];
    assert S.KeysNonEmpty(w[0]);
    assert forall i :: 0 <= i < |w| ==> S.KeysNonEmpty(w[i]);
    var f := [[]] + w;
    assert forall i :: 0 < i < |f| ==> f[i] == w[i - 1];
  }

  /** The oldest table in memory, when memory is not empty. */
  lemma OldestOk(mem: seq<seq<Entry>>, disk: seq<seq<Entry>>, store: Store, blockSize: nat, hash: seq<byte> -> nat)
    requires MemOk(mem) && TotalBytes(mem) > 0 && Good(mem + disk, store)
    ensures var v := FlushView(mem); var es := v[|v| - 1];
      es != [] && Sorted(es) && S.KeysNonEmpty(es) && MemOk(v[..|v| - 1])
    ensures mem != [[]]
  {
    hide TablesOrdered, StoreOfTables, Sorted;
    TotalCons(mem);
    var v := FlushView(mem);
    var es, n := v[|v| - 1], |mem| - 1;
    assert es == mem[n] == (mem + disk)[n];
    if |mem| == 1 {
      assert mem[1..] == [];
      BytesZero(mem[0]);
    }
  }

  /** A new file leaves the others as they are. */
  lemma KeepFiles(ssts: map<nat, Sst>, parts: Parts, hash: seq<byte> -> nat, ids: seq<nat>, id: nat, sst: Sst,
      bs: seq<seq<Entry>>)
    requires FilesOk(ssts, parts, hash, ids) && id !in parts
    ensures
      && FilesOk(ssts[id := sst], parts[id := bs], hash, ids)
      && FileTables(parts[id := bs], ids) == FileTables(parts, ids)
  {
    hide S.Stores;
    forall i | 0 <= i < |ids|
      ensures
        && FileOk(ssts[id := sst], parts[id := bs], hash, ids[i])
        && TableOf(parts[id := bs], ids[i]) == TableOf(parts, ids[i])
    {
      assert FileOk(ssts, parts, hash, ids[i]);
    }
  }

  /** A file under a new id is the newest of level 0, and nothing else changes. */
  lemma FileAdded(ssts: map<nat, Sst>, parts: Parts, hash: seq<byte> -> nat, level0: seq<nat>, levels: seq<seq<nat>>,
      id: nat, sst: Sst, es: seq<Entry>, blockSize: nat)
    requires FilesOk(ssts, parts, hash, level0) && LevelsOk(ssts, parts, hash, levels) && id !in parts
    requires FileHolds(sst, es, blockSize, hash)
    ensures var ssts', parts' := ssts[id := sst], parts[id := Closed(CutAll(es, blockSize))];
      && FilesOk(ssts', parts', hash, [id] + level0) && LevelsOk(ssts', parts', hash, levels)
      && FileTables(parts', [id] + level0) == [es] + FileTables(parts, level0)
      && LevelTables(parts', levels) == LevelTables(parts, levels) && TableOf(parts', id) == es
  {
    hide S.Stores, CutAll, Flatten, LevelsOk;
    var bs := Closed(CutAll(es, blockSize));
    KeepFiles(ssts, parts, hash, level0, id, sst, bs);
    KeepLevels(ssts, parts, hash, levels, id, sst, bs);
    var ids := [id] + level0;
    assert forall i :: 0 < i < |ids| ==> ids[i] == level0[i - 1];
  }

  lemma KeepLevels(ssts: map<nat, Sst>, parts: Parts, hash: seq<byte> -> nat, levels: seq<seq<nat>>, id: nat, sst: Sst,
      bs: seq<seq<Entry>>)
    requires LevelsOk(ssts, parts, hash, levels) && id !in parts
    ensures
      && LevelsOk(ssts[id := sst], parts[id := bs], hash, levels)
      && LevelTables(parts[id := bs], levels) == LevelTables(parts, levels)
  {
    hide FilesOk;
    forall i | 0 <= i < |levels|
      ensures
        && LevelOk(ssts[id := sst], parts[id := bs], hash, levels[i])
        && LevelTable(parts[id := bs], levels[i]) == LevelTable(parts, levels[i])
    {
      assert LevelOk(ssts, parts, hash, levels[i]);
      KeepFiles(ssts, parts, hash, levels[i], id, sst, bs);
    }
  }

  lemma FindsShown(l0: seq<seq<Entry>>, low: seq<seq<Entry>>, key: Key, t: nat, f: Option<Value>)
    requires (f.Some? && FindsIn(l0, key, t, f)) || (FindsIn(l0, key, t, None) && FindsIn(low, key, t, f))
    ensures
      var r := if f.Some? && f.value != [] then f else None;
      r == Shown(FirstMatch(l0 + low, key, t)) || NewAnswer(l0 + low, key, t, r)
  {
    hide TooNew;
    FirstMatchConcat(l0, low, key, t);
    if f.Some? {
      forall i | 0 <= i < |l0| && TooNew(l0[i], key, t, f.value)
        ensures TooNew((l0 + low)[i], key, t, f.value)
      {
      }
      forall i | 0 <= i < |low| && TooNew(low[i], key, t, f.value)
        ensures TooNew((l0 + low)[|l0| + i], key, t, f.value)
      {
      }
    }
  }

  /** With legible ids no file holds a version that is too new only before narrowing. */
  lemma NoneNew(mem: seq<seq<Entry>>, ts: seq<seq<Entry>>, store: Store, key: Key, t: nat, r: Option<Value>)
    requires Good(mem + ts, store) && LegibleStore(store, key, t)
    ensures !NewAnswer(ts, key, t, r)
  {
    var all := mem + ts;
    forall i, j | 0 <= i < |ts| && 0 <= j < |ts[i]| && ts[i][j].key == key
      ensures t == 0 || (ts[i][j].tid % U16 <= t <==> ts[i][j].tid <= t)
    {
      assert ts[i] == all[|mem| + i];
      InTable(all, |mem| + i, ts[i][j], store);
    }
  }
}
