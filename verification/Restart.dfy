/** Restarting after a crash: what the files and the log bring back together. */
module Restart {
  import opened Keys
  import opened Versions
  import opened SkipLists
  import opened MemTables
  import opened Layers
  import opened Records
  import opened Wals
  import opened Transactions
  import opened Blocks
  import S = Ssts
  import E = Engines

  /** The versions of the logged transactions. */
  function LogStore(logged: seq<nat>, txs: map<nat, Tx>): Store {
    if logged == [] then map[]
    else
      var id := logged[|logged| - 1];
      LogStore(logged[..|logged| - 1], txs) + (if id in txs then Stamp(txs[id].temp, id) else map[])
  }

  lemma {:induction false} LogStoreHas(logged: seq<nat>, txs: map<nat, Tx>, k: Key, i: nat)
    ensures (k, i) in LogStore(logged, txs) <==> i in logged && i in txs && k in txs[i].temp
    ensures (k, i) in LogStore(logged, txs) ==> LogStore(logged, txs)[(k, i)] == txs[i].temp[k]
  {
    if logged != [] {
      LogStoreHas(logged[..|logged| - 1], txs, k, i);
      assert logged == logged[..|logged| - 1] + [logged[|logged| - 1]];
    }
  }

  /** Memory after replaying some writes, tables being frozen as they fill up. */
  function Rebuild(ws: seq<Entry>, limit: nat): (ts: seq<seq<Entry>>)
    ensures ts != []
  {
    if ws == [] then [[]] else AfterPut(Rebuild(ws[..|ws| - 1], limit), ws[|ws| - 1], limit)
  }

  lemma {:induction false} RebuildGood(ws: seq<Entry>, limit: nat)
    requires Layers.Rising(ws)
    ensures Good(Rebuild(ws, limit), Replay(ws))
  {
    if ws == [] {
      NothingGood();
    } else {
      var n := |ws| - 1;
      RebuildGood(ws[..n], limit);
      RisingAllowed(ws);
      assert Rebuild(ws[..n], limit) + [] == Rebuild(ws[..n], limit);
      PutGood(Rebuild(ws[..n], limit), [], ws[n], limit, Replay(ws[..n]));
      assert Rebuild(ws, limit) + [] == Rebuild(ws, limit);
    }
  }

  /** Every logged version that no file holds has an id above the watermark. */
  ghost predicate NothingMissed(flushed: Store, log: Store, watermark: nat) {
    forall k, i :: (k, i) in log && (k, i) !in flushed ==> i > watermark
  }

  ghost predicate Agree(a: Store, b: Store) {
    forall x :: x in a && x in b ==> a[x] == b[x]
  }

  /** The logged versions that are replayed. */
  function Above(log: Store, watermark: nat): Store {
    map x | x in log && x.1 > watermark :: log[x]
  }

  lemma VersionsKept(flushed: Store, log: Store, watermark: nat)
    requires Agree(flushed, log)
    ensures flushed + Above(log, watermark) == flushed + log <==> NothingMissed(flushed, log, watermark)
  {
    if NothingMissed(flushed, log, watermark) {
      forall x | x in flushed + log
        ensures x in flushed + Above(log, watermark) && (flushed + Above(log, watermark))[x] == (flushed + log)[x]
      {
        var (k, i) := x;
      }
      assert (flushed + Above(log, watermark)).Keys == (flushed + log).Keys;
    } else {
      var k, i :| (k, i) in log && (k, i) !in flushed && i <= watermark;
      assert (k, i) in flushed + log && (k, i) !in flushed + Above(log, watermark);
    }
  }

  /** Files with the versions flushed, and the log of a manager.  A restart replays exactly the logged
      versions above the watermark.  Then every committed version is back if and only if none that is
      missing from the files has an id at or below the watermark; and every read is right if and only
      if, for each key, the versions that only the files have are older than all that is replayed. */
  method Restarted(m: TranManager, watermark: nat, limit: nat, ghost disk: seq<seq<Entry>>, ghost flushed: Store)
    returns (ws: seq<Entry>)
    requires m.Valid() && Good(disk, flushed) && Agree(flushed, LogStore(m.logged, m.txs))
    ensures Replay(ws) == Above(LogStore(m.logged, m.txs), watermark)
    ensures flushed + Replay(ws) == flushed + LogStore(m.logged, m.txs)
      <==> NothingMissed(flushed, LogStore(m.logged, m.txs), watermark)
    ensures AllRight(Rebuild(ws, limit) + disk, flushed + Replay(ws))
      <==> forall k :: OlderBelow(Above(LogStore(m.logged, m.txs), watermark), flushed, k)
    ensures (forall k, i :: (k, i) in flushed ==> i <= watermark) ==>
      AllRight(Rebuild(ws, limit) + disk, flushed + Replay(ws))
  {
    hide TranManager.Valid, Good, Layers.Rising, Rebuild, Replay, LogStore, ReadsRight;
    ws := m.Replayed(watermark);
    ghost var log := LogStore(m.logged, m.txs);
    forall x: (Key, nat)
      ensures x in Replay(ws) <==> x in Above(log, watermark)
      ensures x in Replay(ws) && x in Above(log, watermark) ==> Replay(ws)[x] == Above(log, watermark)[x]
    {
      var (k, i) := x;
      LogStoreHas(m.logged, m.txs, k, i);
    }
    assert Replay(ws) == Above(log, watermark);
    VersionsKept(flushed, log, watermark);
    RebuildGood(ws, limit);
    forall k
      ensures ReadsRight(Rebuild(ws, limit) + disk, flushed + Replay(ws), k) <==> OlderBelow(Replay(ws), flushed, k)
    {
      StackedRight(Rebuild(ws, limit), disk, Replay(ws), flushed, k);
    }
  }

  function NewTx(id: nat): Tx {
    Tx(RepeatableRead, [Create(id)], map[], map[], Active)
  }

  /** A transaction that writes one key and commits. */
  method WriteOne(m: TranManager, id: nat, key: Key, value: Value, draw: Key -> nat, bits: Key -> seq<bool>)
    requires m.Valid() && m.InOrder() && NotBelow(m.store, key, id)
    requires id in m.txs && m.txs[id] == NewTx(id) && RecordFits(Record.Put(id, key, value))
    requires forall k :: 1 <= draw(k) <= m.memtable.maxLevel && |bits(k)| >= m.memtable.maxLevel
    modifies m`txs, m`logged, m`store, m`maxFinished, m.wal, m.memtable.current, m.memtable.current.nodes
    ensures m.Valid() && m.InOrder() && m.logged == old(m.logged) + [id] && m.store == old(m.store)[(key, id) := value]
    ensures fresh(m.memtable.current.nodes - old(m.memtable.current.nodes))
    ensures m.txs.Keys == old(m.txs).Keys && forall i :: i in m.txs && i != id ==> m.txs[i] == old(m.txs)[i]
    ensures m.txs[id].temp == map[key := value] && m.nextId == old(m.nextId)
  {
    hide TranManager.InOrder, TranManager.MemOk, TranManager.LogOk, TxsOk, MemTable.Valid, MemTable.Tables, RecordFits,
      KeepsReads, NotBelow;
    ghost var temp := map[key := value];
    m.Put(id, key, value);
    assert m.txs[id].temp == temp;
    assert NoneNewer(m.store, temp.Keys, id);
    var _ := m.Commit(id, false, draw, bits);
    assert Publish(old(m.store), temp, id) == old(m.store)[(key, id) := value];
  }

  /** A manager over an empty memtable and an empty log. */
  method NewManager() returns (m: TranManager)
    ensures fresh(m) && fresh(m.wal) && fresh(m.memtable)
    ensures fresh(m.memtable.current) && fresh(m.memtable.current.nodes)
    ensures m.Valid() && m.InOrder() && m.store == map[] && m.logged == [] && m.txs == map[] && m.nextId == 1
    ensures m.memtable.maxLevel == 1
  {
    hide TranManager.Valid, TranManager.InOrder, MemTable.Valid, MemTable.Tables, Wal.Valid;
    var memtable := new MemTable(1, 100);
    var wal := new Wal(1, 1000);
    m := new TranManager(memtable, wal);
  }

  /** Two transactions begun. */
  method TwoBegun() returns (m: TranManager)
    ensures fresh(m) && fresh(m.wal) && fresh(m.memtable.current) && fresh(m.memtable.current.nodes)
    ensures m.Valid() && m.InOrder() && m.store == map[] && m.logged == [] && m.memtable.maxLevel == 1
    ensures m.txs == map[1 := NewTx(1), 2 := NewTx(2)]
  {
    hide TranManager.MemOk, TranManager.LogOk, TxsOk, MemTable.Valid, MemTable.Tables, TablesOrdered;
    m := NewManager();
    var _ := m.Begin(RepeatableRead);
    var _ := m.Begin(RepeatableRead);
  }

  /** A table with one version, and the watermark that flushing it leaves. */
  lemma OneFlushed(e: Entry)
    requires e.tid < U64
    ensures Good([[e]], map[(e.key, e.tid) := e.value]) && S.MaxId([e]) == e.tid
  {
    assert [e][1..] == [] && [[e]][1..] == [];
    assert StoreOf([e]) == map[(e.key, e.tid) := e.value];
    assert StoreOfTables([[e]]) == map[] + StoreOf([e]);
    assert [e][..0] == [];
  }

  /** Transaction 2 commits, and the table with its write is flushed, which raises the watermark to
      the greatest id in it; then transaction 1 commits.  A restart does not bring back what
      transaction 1 wrote. */
  method LateCommitLost(limit: nat, draw: Key -> nat, bits: Key -> seq<bool>)
    returns (m: TranManager, ws: seq<Entry>, ghost flushed: Store)
    requires forall k :: draw(k) == 1 && |bits(k)| >= 1
    ensures flushed == map[([2], 2) := [2]] && m.store == map[([2], 2) := [2], ([1], 1) := [1]]
    ensures LogStore(m.logged, m.txs) == m.store
    ensures !NothingMissed(flushed, m.store, S.MaxId([Entry([2], [2], 2)]))
    ensures flushed + Replay(ws) != flushed + m.store
  {
    hide TranManager.Valid, TranManager.InOrder, Replay, Layers.Rising, Good, AllRight, Rebuild, S.MaxId, LogStore,
      OlderBelow, Above;
    m := CommitBoth(draw, bits);
    var table := [Entry([2], [2], 2)];
    flushed := map[([2], 2) := [2]];
    OneFlushed(table[0]);
    assert ([1], 1) in m.store && ([1], 1) !in flushed;
    ws := Restarted(m, S.MaxId(table), limit, [table], flushed);
  }

  /** Transaction 2 commits, then transaction 1. */
  method CommitBoth(draw: Key -> nat, bits: Key -> seq<bool>) returns (m: TranManager)
    requires forall k :: draw(k) == 1 && |bits(k)| >= 1
    ensures m.Valid() && m.logged == [2, 1] && m.store == LogStore(m.logged, m.txs)
    ensures m.store == map[([2], 2) := [2], ([1], 1) := [1]]
  {
    hide TranManager.Valid, TranManager.InOrder, LogStore;
    m := TwoBegun();
    WriteOne(m, 2, [2], [2], draw, bits);
    WriteOne(m, 1, [1], [1], draw, bits);
    LogOfTwo(m.txs, [2], [2], [1], [1]);
  }

  lemma {:induction false} LogOfTwo(txs: map<nat, Tx>, k: Key, v: Value, k': Key, v': Value)
    requires 1 in txs && 2 in txs && txs[2].temp == map[k := v] && txs[1].temp == map[k' := v']
    ensures LogStore([2, 1], txs) == map[(k, 2) := v, (k', 1) := v']
  {
    hide Stamp, LogStore;
    OneStamp(txs[2].temp, 2, k, v);
    OneStamp(txs[1].temp, 1, k', v');
    LogSnoc([], txs, 2);
    LogSnoc([2], txs, 1);
    assert [] + [2] == [2] && [2] + [1] == [2, 1];
    assert map[] + map[(k, 2) := v] == map[(k, 2) := v];
    assert map[(k, 2) := v] + map[(k', 1) := v'] == map[(k, 2) := v, (k', 1) := v'];
  }

  lemma OneStamp(temp: map<Key, Value>, id: nat, k: Key, v: Value)
    requires temp == map[k := v]
    ensures Stamp(temp, id) == map[(k, id) := v]
  {
  }

  lemma {:induction false} LogSnoc(logged: seq<nat>, txs: map<nat, Tx>, id: nat)
    requires id in txs
    ensures LogStore([], txs) == map[]
    ensures LogStore(logged + [id], txs) == LogStore(logged, txs) + Stamp(txs[id].temp, id)
  {
    assert (logged + [id])[..|logged|] == logged;
  }

  /** Transaction 1 commits, then a plain write to the same key takes id 2 and a table with it is
      flushed by that write, which does not raise the watermark.  The restart replays version 1
      above the file with version 2, and reads of the key are wrong. */
  method PlainWriteBuried(limit: nat, draw: Key -> nat, bits: Key -> seq<bool>)
    returns (m: TranManager, ws: seq<Entry>, ghost disk: seq<seq<Entry>>, ghost flushed: Store)
    requires forall k :: draw(k) == 1 && |bits(k)| >= 1
    ensures flushed == map[([1], 2) := [2]] && disk == [[Entry([1], [2], 2)]]
    ensures LogStore(m.logged, m.txs) == map[([1], 1) := [1]] && m.store == map[([1], 1) := [1], ([1], 2) := [2]]
    ensures flushed + Replay(ws) == m.store && !AllRight(Rebuild(ws, limit) + disk, m.store)
  {
    hide TranManager.Valid, TranManager.InOrder, Replay, Layers.Rising, Good, AllRight, Rebuild;
    m := OneBegun();
    WriteOne(m, 1, [1], [1], draw, bits);
    var _ := m.AutoPut([1], [2], 1, bits([1]));
    flushed, disk := map[([1], 2) := [2]], [[Entry([1], [2], 2)]];
    OneFlushed(disk[0][0]);
    LogOfOne(m.txs, [1], [1]);
    ws := Restarted(m, 0, limit, disk, flushed);
    assert Above(map[([1], 1) := [1]], 0) == map[([1], 1) := [1]];
    assert ([1], 2) in flushed && ([1], 1) in Replay(ws);
    assert !OlderBelow(Replay(ws), flushed, [1]);
  }

  method OneBegun() returns (m: TranManager)
    ensures fresh(m) && fresh(m.wal) && fresh(m.memtable)
    ensures fresh(m.memtable.current) && fresh(m.memtable.current.nodes)
    ensures m.Valid() && m.InOrder() && m.store == map[] && m.logged == [] && m.memtable.maxLevel == 1 && m.nextId == 2
    ensures m.txs == map[1 := NewTx(1)]
  {
    hide TranManager.MemOk, TranManager.LogOk, TxsOk, MemTable.Valid, MemTable.Tables, TablesOrdered;
    m := NewManager();
    var _ := m.Begin(RepeatableRead);
  }

  lemma {:induction false} LogOfOne(txs: map<nat, Tx>, k: Key, v: Value)
    requires 1 in txs && txs[1].temp == map[k := v]
    ensures LogStore([1], txs) == map[(k, 1) := v]
  {
    hide Stamp, LogStore;
    OneStamp(txs[1].temp, 1, k, v);
    LogSnoc([], txs, 1);
    assert [] + [1] == [1];
    assert map[] + map[(k, 1) := v] == map[(k, 1) := v];
  }

  // ------------------------------------------------------------ replay into an engine

  /** Bytes of some writes. */
  function WriteBytes(ws: seq<Entry>): nat {
    if ws == [] then 0 else EntryBytes(ws[0]) + WriteBytes(ws[1..])
  }

  lemma {:induction false} PutBytes(es: seq<Entry>, e: Entry)
    ensures SkipLists.Bytes(PutSorted(es, e)) <= SkipLists.Bytes(es) + EntryBytes(e)
  {
    if es != [] {
      PutBytes(es[1..], e);
      assert ([es[0]] + PutSorted(es[1..], e))[1..] == PutSorted(es[1..], e);
      assert ([e] + es)[1..] == es && ([e] + es[1..])[1..] == es[1..];
    }
  }

  lemma AfterPutBytes(ts: seq<seq<Entry>>, e: Entry, limit: nat)
    requires ts != []
    ensures TotalBytes(AfterPut(ts, e, limit)) <= TotalBytes(ts) + EntryBytes(e)
  {
    PutBytes(ts[0], e);
    var w := [PutSorted(ts[0], e)] + ts[1..];
    assert w[1..] == ts[1..];
    assert ([[]] + w)[1..] == w;
  }

  /** No version in the store is newer than a write to its key. */
  ghost predicate AllAbove(store: Store, ws: seq<Entry>) {
    forall n :: 0 <= n < |ws| ==> NotBelow(store, ws[n].key, ws[n].tid)
  }

  lemma {:induction false} WriteAllHas(store: Store, ws: seq<Entry>, k: Key, i: nat)
    requires (k, i) in WriteAll(store, ws)
    ensures (k, i) in store || exists j :: 0 <= j < |ws| && ws[j].key == k && ws[j].tid == i
  {
    if ws != [] {
      var n := |ws| - 1;
      if k != ws[n].key || i != ws[n].tid {
        WriteAllHas(store, ws[..n], k, i);
      }
    }
  }

  lemma NextAllowed(store: Store, ws: seq<Entry>, n: nat)
    requires AllAbove(store, ws) && Layers.Rising(ws) && n < |ws|
    ensures NotBelow(WriteAll(store, ws[..n]), ws[n].key, ws[n].tid)
    ensures WriteAll(store, ws[..n + 1]) == WriteAll(store, ws[..n])[(ws[n].key, ws[n].tid) := ws[n].value]
  {
    forall i | (ws[n].key, i) in WriteAll(store, ws[..n])
      ensures i <= ws[n].tid
    {
      WriteAllHas(store, ws[..n], ws[n].key, i);
    }
    assert ws[..n + 1][..n] == ws[..n];
  }

  /** The replay loop on an engine whose files were loaded: its store gains exactly the writes. */
  method ReplayInto(engine: E.Engine, ws: seq<Entry>, draws: seq<nat>, bits: seq<seq<bool>>)
    requires engine.Valid() && Layers.Rising(ws) && AllAbove(engine.store, ws) && |draws| == |bits| == |ws|
    requires forall n :: 0 <= n < |ws| ==> ws[n].key != []
    requires forall n :: 0 <= n < |ws| ==>
      1 <= draws[n] <= engine.config.maxLevel && |bits[n]| >= engine.config.maxLevel
    requires TotalBytes(engine.memtable.Tables()) + WriteBytes(ws) < engine.config.totalLimit
    modifies engine, engine.memtable.Repr()
    ensures engine.Valid() && engine.store == WriteAll(old(engine.store), ws)
  {
    hide E.Engine.FilesValid, Good, E.MemOk, MemTable.Valid, MemTable.Tables, Layers.Rising, AllAbove, NotBelow,
      WriteAll, TotalBytes, EntryBytes;
    ghost var store := engine.store;
    assert ws[0..] == ws;
    WriteNothing(store);
    for n := 0 to |ws|
      invariant engine.Valid() && engine.memtable.Valid() && fresh(engine.memtable.Repr() - old(engine.memtable.Repr()))
      invariant engine.store == WriteAll(store, ws[..n])
      invariant TotalBytes(engine.memtable.Tables()) + WriteBytes(ws[n..]) < engine.config.totalLimit
    {
      NextAllowed(store, ws, n);
      AfterPutBytes(engine.memtable.Tables(), ws[n], engine.config.perMemLimit);
      assert ws[n..][1..] == ws[n + 1..];
      var _ := engine.Put(ws[n].key, ws[n].value, ws[n].tid, draws[n], bits[n]);
    }
    assert ws[..|ws|] == ws;
  }

  lemma WriteNothing(store: Store)
    ensures WriteAll(store, []) == store
  {
  }
}
