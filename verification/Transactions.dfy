/** Transactions over an in-memory store: snapshots, buffered writes, conflict check, commit log. */
module Transactions {
  import opened Keys
  import opened Versions
  import opened MemTables
  import opened Layers
  import opened Records
  import opened Wals
  import opened Recovery
  import opened Blocks

  datatype Isolation = ReadCommitted | RepeatableRead | Serializable

  datatype Status = Active | Committed | Aborted

  /** One transaction: its records, its unpublished writes and its cached reads. */
  datatype Tx = Tx(iso: Isolation, ops: seq<Record>, temp: map<Key, Value>, seen: map<Key, Option<Value>>,
      status: Status)

  /** The records are the transaction's own and say what its unpublished writes say. */
  ghost predicate TxOk(id: nat, tx: Tx) {
    && id > 0 && AllFit(tx.ops) && tx.ops != [] && (forall r :: r in tx.ops ==> r.tid == id)
    && FinalValues(tx.ops) == tx.temp
  }

  ghost predicate TxsOk(txs: map<nat, Tx>, nextId: nat) {
    nextId > 0 && forall id :: id in txs ==> id < nextId && TxOk(id, txs[id])
  }

  /** The log: the records of the logged transactions, one after another. */
  function LogOf(logged: seq<nat>, txs: map<nat, Tx>): seq<Record> {
    if logged == [] then []
    else
      var id := logged[|logged| - 1];
      LogOf(logged[..|logged| - 1], txs) + (if id in txs then txs[id].ops else [])
  }

  /** Exactly the committed transactions are logged, each once. */
  ghost predicate LoggedOk(logged: seq<nat>, txs: map<nat, Tx>) {
    && (forall i, j :: 0 <= i < j < |logged| ==> logged[i] != logged[j])
    && (forall id :: id in logged <==> id in txs && txs[id].status == Committed)
  }

  lemma {:induction false} LogKept(logged: seq<nat>, txs: map<nat, Tx>, txs': map<nat, Tx>)
    requires forall id :: id in logged ==> id in txs && id in txs' && txs'[id].ops == txs[id].ops
    ensures LogOf(logged, txs') == LogOf(logged, txs)
  {
    if logged != [] {
      LogKept(logged[..|logged| - 1], txs, txs');
    }
  }

  /** A transaction's records in the log: all of them if it is logged, none otherwise. */
  lemma {:induction false} LogOnly(logged: seq<nat>, txs: map<nat, Tx>, id: nat)
    requires forall i, j :: 0 <= i < j < |logged| ==> logged[i] != logged[j]
    requires forall i :: i in logged ==> i in txs
    requires forall i, r :: i in txs && r in txs[i].ops ==> r.tid == i
    ensures Only(LogOf(logged, txs), id) == (if id in logged then txs[id].ops else [])
  {
    if logged != [] {
      var front, l := logged[..|logged| - 1], logged[|logged| - 1];
      LogOnly(front, txs, id);
      OnlyConcat(LogOf(front, txs), txs[l].ops, id);
      if l == id {
        OnlyAll(txs[l].ops, id);
        assert id !in front;
      } else {
        OnlyNone(txs[l].ops, id);
        assert logged == front + [l];
      }
    }
  }

  /** No key of the writes has a version newer than id. */
  ghost predicate NoneNewer(store: Store, keys: set<Key>, id: nat) {
    forall k :: k in keys ==> NotBelow(store, k, id)
  }

  /** The store with all writes of a transaction under its id. */
  function Publish(store: Store, temp: map<Key, Value>, id: nat): Store {
    store + Stamp(temp, id)
  }

  /** The writes of a transaction as versions. */
  function Stamp(temp: map<Key, Value>, id: nat): (s: Store)
    ensures forall k, i :: (k, i) in s <==> i == id && k in temp
    ensures forall k :: k in temp ==> s[(k, id)] == temp[k]
  {
    map k | k in temp :: (k, id) := temp[k]
  }

  /** Cached reads only grow. */
  ghost predicate KeepsReads(before: map<nat, Tx>, after: map<nat, Tx>) {
    forall id, k :: id in before && k in before[id].seen ==>
      id in after && k in after[id].seen && after[id].seen[k] == before[id].seen[k]
  }

  class TranManager {
    const memtable: MemTable
    const wal: Wal
    var nextId: nat
    var txs: map<nat, Tx>
    var maxFinished: nat
    ghost var store: Store
    ghost var logged: seq<nat>

    ghost predicate MemOk()
      requires memtable.Valid()
      reads `store, `nextId, memtable, memtable.current, memtable.current.nodes, memtable.cold
    {
      && AllSorted(memtable.Tables()) && StoreOfTables(memtable.Tables()) == store
      && forall k, i :: (k, i) in store ==> i < nextId
    }

    ghost predicate LogOk()
      reads `txs, `logged, wal
    {
      wal.Valid() && wal.buffer == [] && LoggedOk(logged, txs) && wal.Durable() == LogOf(logged, txs)
    }

    ghost predicate Valid()
      reads this, memtable, memtable.current, memtable.current.nodes, memtable.cold, wal
    {
      Separate() && memtable.Valid() && MemOk() && LogOk() && TxsOk(txs, nextId)
    }

    /** The manager, its log and its memtable share nothing. */
    ghost predicate Separate()
      reads memtable, memtable.current
    {
      this !in memtable.Repr() && wal !in memtable.Repr() && (wal as object) != this
    }

    /** Per key, newer tables hold newer versions, so the first match is the newest version. */
    ghost predicate InOrder()
      requires memtable.Valid()
      reads memtable, memtable.current, memtable.current.nodes, memtable.cold
    {
      TablesOrdered(memtable.Tables())
    }

    constructor (memtable: MemTable, wal: Wal)
      requires
        && memtable.Valid() && memtable.Tables() == [[]] && wal.Valid() && wal.Durable() == [] && wal.buffer == []
        && wal !in memtable.Repr()
      ensures Valid() && InOrder() && store == map[] && txs == map[] && logged == [] && nextId == 1
      ensures this.memtable == memtable && this.wal == wal
    {
      hide MemTable.Valid, MemTable.Tables, Wal.Valid, Apart;
      this.memtable, this.wal := memtable, wal;
      nextId, txs, maxFinished := 1, map[], 0;
      store, logged := map[], [];
      new;
      assert this !in memtable.Repr();
      NothingGood();
    }

    /** Replaces the state of a transaction that is not logged. */
    method SetTx(id: nat, tx: Tx)
      requires Valid() && id < nextId && TxOk(id, tx) && CanReplace(txs, id, tx)
      modifies `txs
      ensures Valid() && txs == old(txs)[id := tx]
    {
      hide MemTable.Valid, MemOk, TxOk, LogOf, LoggedOk, Wal.Valid;
      TxChange(txs, id, tx, logged, nextId);
      txs := txs[id := tx];
    }

    /** A new transaction with the next id. */
    method Begin(iso: Isolation) returns (id: nat)
      requires Valid() && nextId < U64
      modifies `nextId, `txs
      ensures Valid() && id == old(nextId) && nextId == old(nextId) + 1 && id !in old(txs)
      ensures txs == old(txs)[id := Tx(iso, [Create(id)], map[], map[], Active)] && KeepsReads(old(txs), txs)
    {
      hide MemTable.Valid, MemOk, LogOk, TxOk;
      id := TakeId();
      FreshTx(iso, id);
      SetTx(id, Tx(iso, [Create(id)], map[], map[], Active));
    }

    /** The next id, never used before. */
    method TakeId() returns (id: nat)
      requires Valid()
      modifies `nextId
      ensures
        && Valid() && id == old(nextId) && nextId == id + 1 && id > 0 && id !in txs
        && forall k, i :: (k, i) in store ==> i < id
    {
      hide StoreOfTables, AllSorted, MemTable.Valid, TxOk;
      id := nextId;
      nextId := nextId + 1;
    }

    /** Buffers a write and its record. */
    method Put(id: nat, key: Key, value: Value)
      requires Valid() && id in txs && txs[id].status == Active && RecordFits(Record.Put(id, key, value))
      modifies `txs
      ensures Valid() && KeepsReads(old(txs), txs)
      ensures var tx := old(txs)[id];
        txs == old(txs)[id := tx.(ops := tx.ops + [Record.Put(id, key, value)], temp := tx.temp[key := value])]
    {
      hide MemTable.Valid, MemOk, LogOk, TxOk;
      var tx := txs[id];
      Recorded(id, tx, Record.Put(id, key, value));
      SetTx(id, tx.(ops := tx.ops + [Record.Put(id, key, value)], temp := tx.temp[key := value]));
    }

    /** Buffers a deletion: the empty value. */
    method Remove(id: nat, key: Key)
      requires Valid() && id in txs && txs[id].status == Active && RecordFits(Delete(id, key))
      modifies `txs
      ensures Valid() && KeepsReads(old(txs), txs)
      ensures var tx := old(txs)[id];
        txs == old(txs)[id := tx.(ops := tx.ops + [Delete(id, key)], temp := tx.temp[key := []])]
    {
      hide MemTable.Valid, MemOk, LogOk, TxOk;
      var tx := txs[id];
      Recorded(id, tx, Delete(id, key));
      SetTx(id, tx.(ops := tx.ops + [Delete(id, key)], temp := tx.temp[key := []]));
    }

    /** The newest version visible at t, through the memtable. */
    method EngineGet(key: Key, t: nat) returns (r: Option<Value>)
      requires Valid()
      ensures InOrder() ==> Answers(store, key, t, r)
    {
      hide StoreOfTables, AllSorted, MemTable.Valid, FirstMatch, Answers, TablesOrdered, TxsOk;
      var e := memtable.Get(key, t);
      if InOrder() {
        GoodAnswers(memtable.Tables(), store, key, t);
      }
      r := Shown(e);
    }

    /** Reads a key: its own write first (a deletion reads as the empty value); then, above read
        committed, what it read before; then the newest version up to its own id. */
    method Get(id: nat, key: Key) returns (r: Option<Value>)
      requires Valid() && id in txs
      modifies `txs
      ensures Valid() && KeepsReads(old(txs), txs)
      ensures var tx := old(txs)[id];
        if key in tx.temp then r == Some(tx.temp[key]) && txs == old(txs)
        else if tx.iso == ReadCommitted then (InOrder() ==> Answers(store, key, id, r)) && txs == old(txs)
        else if key in tx.seen then r == tx.seen[key] && txs == old(txs)
        else (InOrder() ==> Answers(store, key, id, r)) && txs == old(txs)[id := tx.(seen := tx.seen[key := r])]
    {
      hide MemTable.Valid, MemOk, LogOk, Answers, InOrder;
      var tx := txs[id];
      if key in tx.temp {
        return Some(tx.temp[key]);
      }
      if tx.iso == ReadCommitted {
        r := EngineGet(key, id);
      } else if key in tx.seen {
        r := tx.seen[key];
      } else {
        r := EngineGet(key, id);
        SetTx(id, tx.(seen := tx.seen[key := r]));
      }
    }

    /** Drops the buffered writes: nothing was logged or published. */
    method Abort(id: nat)
      requires Valid() && id in txs && txs[id].status == Active
      modifies `txs
      ensures Valid() && KeepsReads(old(txs), txs) && txs == old(txs)[id := old(txs)[id].(status := Aborted)]
    {
      hide MemTable.Valid, MemOk, LogOk;
      SetTx(id, txs[id].(status := Aborted));
    }

    /** A write outside any transaction, under a fresh id; it is not logged. */
    method AutoPut(key: Key, value: Value, draw: nat, bits: seq<bool>) returns (id: nat)
      requires Valid() && 1 <= draw <= memtable.maxLevel && |bits| >= memtable.maxLevel
      modifies `nextId, `store, memtable, memtable.current, memtable.current.nodes
      ensures Valid() && id == old(nextId) && nextId == id + 1 && store == old(store)[(key, id) := value]
      ensures old(InOrder()) ==> InOrder()
    {
      hide MemTable.Valid, MemTable.Tables, AllSorted, StoreOfTables, TablesOrdered, LogOk, TxsOk;
      id := TakeId();
      AfterPutKept(memtable.Tables(), Entry(key, value, id), memtable.perMemLimit, store);
      memtable.Put(key, value, id, draw, bits);
      store := store[(key, id) := value];
    }

    /** The active table may be frozen at any time. */
    method Freeze()
      requires Valid()
      modifies memtable
      ensures Valid() && (old(InOrder()) ==> InOrder())
    {
      hide MemTable.Valid, MemTable.Tables, AllSorted, StoreOfTables, TablesOrdered, LogOk, TxsOk;
      EmptyKept(memtable.Tables(), store);
      memtable.Freeze();
    }

    /** Has someone with a larger id already written one of the keys? */
    method FindClash(id: nat, keys: set<Key>) returns (clash: bool)
      requires Valid()
      ensures InOrder() ==> (clash <==> Clash(store, keys, id))
    {
      hide MemTable.Valid, MemTable.Tables, AllSorted, StoreOfTables, TablesOrdered, LogOk, TxsOk, FirstMatch;
      var left := keys;
      while left != {}
        invariant left <= keys
        invariant InOrder() ==> forall k :: k in keys && k !in left ==> NotBelow(store, k, id)
        decreases left
      {
        var k :| k in left;
        var e := memtable.Get(k, 0);
        if InOrder() {
          NewestTells(memtable.Tables(), store, k, id);
        }
        if e.Some? && e.value.tid > id {
          return true;
        }
        left := left - {k};
      }
      return false;
    }

    /** Writes the records and the commit record to the log: from here on the transaction counts. */
    method LogCommit(id: nat)
      requires Valid() && id in txs && txs[id].status == Active
      modifies `txs, `logged, wal
      ensures Valid() && logged == old(logged) + [id]
      ensures txs == old(txs)[id := old(txs)[id].(ops := old(txs)[id].ops + [Record.Commit(id)], status := Committed)]
    {
      hide MemTable.Valid, MemOk, LogOf, Wal.Valid, Wal.Durable, AllFit;
      var tx := txs[id];
      IdFits(id, tx);
      Recorded(id, tx, Record.Commit(id));
      Committing(logged, txs, id, nextId);
      ghost var before := wal.Durable();
      wal.Log(tx.ops + [Record.Commit(id)], true);
      assert wal.Durable() + [] == wal.Durable() && before + [] == before;
      txs := txs[id := tx.(ops := tx.ops + [Record.Commit(id)], status := Committed)];
      logged := logged + [id];
    }

    /** Publishes the writes in the active table, in some order of the keys. */
    method Apply(id: nat, temp: map<Key, Value>, draw: Key -> nat, bits: Key -> seq<bool>)
      requires Valid() && id < nextId
      requires forall k :: 1 <= draw(k) <= memtable.maxLevel && |bits(k)| >= memtable.maxLevel
      modifies `store, memtable.current, memtable.current.nodes
      ensures
        && Valid() && store == Publish(old(store), temp, id)
        && fresh(memtable.current.nodes - old(memtable.current.nodes))
      ensures old(InOrder()) && NoneNewer(old(store), temp.Keys, id) ==> InOrder()
    {
      hide MemTable.Valid, MemOk, LogOk, InOrder, TxsOk, Publish, Stamp;
      PublishNone(store, temp, id);
      var left := temp.Keys;
      ghost var done: set<Key> := {};
      while left != {}
        invariant Valid() && memtable.Valid() && left + done == temp.Keys && left !! done
        invariant fresh(memtable.current.nodes - old(memtable.current.nodes))
        invariant store == Publish(old(store), Part(temp, done), id)
        invariant old(InOrder()) && NoneNewer(old(store), temp.Keys, id) ==> InOrder()
        decreases left
      {
        var k :| k in left;
        StillNoneNewer(old(store), temp, done, id, k);
        PublishOne(old(store), temp, done, id, k);
        ApplyOne(id, k, temp[k], draw(k), bits(k));
        left, done := left - {k}, done + {k};
      }
      assert Part(temp, done) == temp;
    }

    method ApplyOne(id: nat, key: Key, value: Value, draw: nat, bits: seq<bool>)
      requires Valid() && id < nextId && 1 <= draw <= memtable.maxLevel && |bits| >= memtable.maxLevel
      modifies `store, memtable.current, memtable.current.nodes
      ensures Valid() && memtable.Valid() && store == old(store)[(key, id) := value]
      ensures fresh(memtable.current.nodes - old(memtable.current.nodes))
      ensures old(InOrder()) && NotBelow(old(store), key, id) ==> InOrder()
    {
      hide MemTable.Valid, MemTable.Tables, AllSorted, StoreOfTables, TablesOrdered, LogOk, TxsOk;
      WriteKept(memtable.Tables(), Entry(key, value, id), store);
      memtable.PutCurrent(key, value, id, draw, bits);
      store := store[(key, id) := value];
    }

    /** Commits: above read committed, only if no key of the transaction has a newer version.
        The log is written before anything is published; testFail stops in between. */
    method Commit(id: nat, testFail: bool, draw: Key -> nat, bits: Key -> seq<bool>) returns (ok: bool)
      requires Valid() && id in txs && txs[id].status == Active
      requires forall k :: 1 <= draw(k) <= memtable.maxLevel && |bits(k)| >= memtable.maxLevel
      modifies `txs, `logged, `store, `maxFinished, wal, memtable.current, memtable.current.nodes
      ensures Valid() && KeepsReads(old(txs), txs) && fresh(memtable.current.nodes - old(memtable.current.nodes))
      ensures old(InOrder()) && old(txs)[id].iso != ReadCommitted ==>
        InOrder() && (ok <==> NoneNewer(old(store), old(txs)[id].temp.Keys, id))
      ensures old(txs)[id].iso == ReadCommitted ==> ok
      ensures maxFinished == if ok && id > old(maxFinished) then id else old(maxFinished)
      ensures var tx := old(txs)[id];
        if ok then
          && logged == old(logged) + [id]
          && txs == old(txs)[id := tx.(ops := tx.ops + [Record.Commit(id)], status := Committed)]
          && store == (if testFail then old(store) else Publish(old(store), tx.temp, id))
        else logged == old(logged) && store == old(store) && txs == old(txs)[id := tx.(status := Aborted)]
    {
      hide MemTable.Valid, MemOk, LogOk, InOrder, TxsOk, NotBelow;
      var tx := txs[id];
      if tx.iso != ReadCommitted {
        var clash := FindClash(id, tx.temp.Keys);
        if clash {
          Abort(id);
          return false;
        }
      }
      IdBelow(txs, id, nextId);
      LogCommit(id);
      if !testFail {
        Apply(id, tx.temp, draw, bits);
      }
      maxFinished := if id > maxFinished then id else maxFinished;
      return true;
    }

    /** What a restart rebuilds from the log files alone: the writes replayed are exactly those of
        the logged transactions above the watermark, and their ids rise. */
    method Replayed(watermark: nat) returns (ws: seq<Entry>)
      requires Valid()
      ensures Layers.Rising(ws)
      ensures forall k, i :: (k, i) in Replay(ws) <==> i > watermark && i in logged && k in txs[i].temp
      ensures forall k, i :: (k, i) in Replay(ws) ==>
        i in txs && k in txs[i].temp && Replay(ws)[(k, i)] == txs[i].temp[k]
    {
      hide MemTable.Valid, MemOk, Wal.Valid, FilesHold, Layers.Rising;
      LogFiles(wal);
      var m := Recover(wal.Files(), watermark, wal.parts + [wal.tail]);
      ws := ReplayAll(m.value);
      LogGroups(logged, txs, nextId, watermark);
    }
  }

  lemma LogFiles(w: Wal)
    requires w.Valid()
    ensures FilesHold(w.Files(), w.parts + [w.tail]) && Concat(w.parts + [w.tail]) == w.Durable()
  {
    RecoverExact(w, 0, 0);
  }

  /** The recovered lists: the full records of every logged transaction above the watermark. */
  lemma LogGroups(logged: seq<nat>, txs: map<nat, Tx>, nextId: nat, watermark: nat)
    requires TxsOk(txs, nextId) && LoggedOk(logged, txs)
    ensures var m := Group(LogOf(logged, txs), watermark);
      && (forall i :: i in m <==> i > watermark && i in logged)
      && (forall i :: i in m ==> i in txs && m[i] == txs[i].ops && FinalValues(m[i]) == txs[i].temp)
  {
    var log := LogOf(logged, txs);
    forall i, r | i in txs && r in txs[i].ops
      ensures r.tid == i
    {
      assert TxOk(i, txs[i]);
    }
    forall i: nat
      ensures i in Group(log, watermark) <==> i > watermark && i in logged
      ensures i in Group(log, watermark) ==>
        i in txs && Group(log, watermark)[i] == txs[i].ops && FinalValues(txs[i].ops) == txs[i].temp
    {
      GroupExact(log, watermark, i);
      LogOnly(logged, txs, i);
      assert i in txs ==> TxOk(i, txs[i]);
    }
  }

  lemma IdBelow(txs: map<nat, Tx>, id: nat, nextId: nat)
    requires TxsOk(txs, nextId) && id in txs
    ensures id < nextId
  {
  }

  /** The writes already published. */
  function Part(temp: map<Key, Value>, done: set<Key>): map<Key, Value> {
    map k | k in temp && k in done :: temp[k]
  }

  /** Publishing other keys does not make a key's versions newer. */
  lemma StillNoneNewer(store: Store, temp: map<Key, Value>, done: set<Key>, id: nat, k: Key)
    requires k in temp && k !in done
    ensures NoneNewer(store, temp.Keys, id) ==> NotBelow(Publish(store, Part(temp, done), id), k, id)
  {
  }

  lemma PublishNone(store: Store, temp: map<Key, Value>, id: nat)
    ensures Publish(store, Part(temp, {}), id) == store
  {
    assert Part(temp, {}) == map[];
    assert Stamp(map[], id) == map[];
  }

  lemma PublishOne(store: Store, temp: map<Key, Value>, done: set<Key>, id: nat, k: Key)
    requires k in temp && k !in done
    ensures Publish(store, Part(temp, done + {k}), id) == Publish(store, Part(temp, done), id)[(k, id) := temp[k]]
  {
    hide Stamp;
    var a, b := Publish(store, Part(temp, done + {k}), id), Publish(store, Part(temp, done), id)[(k, id) := temp[k]];
    forall p: (Key, nat)
      ensures p in a <==> p in b
      ensures p in a && p in b ==> a[p] == b[p]
    {
      assert p == (p.0, p.1);
    }
  }

  /** Keys with a version newer than id exist among keys. */
  ghost predicate Clash(store: Store, keys: set<Key>, id: nat) {
    exists k :: k in keys && !NotBelow(store, k, id)
  }

  lemma FreshTx(iso: Isolation, id: nat)
    requires 0 < id < U64
    ensures TxOk(id, Tx(iso, [Create(id)], map[], map[], Active))
  {
    assert [Create(id)][..0] == [];
  }

  lemma IdFits(id: nat, tx: Tx)
    requires TxOk(id, tx)
    ensures id < U64
  {
    assert tx.ops[0] in tx.ops && RecordFits(tx.ops[0]);
  }

  lemma Recorded(id: nat, tx: Tx, r: Record)
    requires TxOk(id, tx) && RecordFits(r) && r.tid == id
    ensures TxOk(id, tx.(ops := tx.ops + [r], temp := Effect(tx.temp, r)))
  {
    assert (tx.ops + [r])[..|tx.ops|] == tx.ops;
  }

  /** Neither commits the transaction nor touches the records of a committed one. */
  ghost predicate CanReplace(txs: map<nat, Tx>, id: nat, tx: Tx) {
    if id in txs && txs[id].status == Committed then tx.status == Committed && tx.ops == txs[id].ops
      else tx.status != Committed
  }

  /** Changing an unlogged transaction changes nothing about the log. */
  lemma TxChange(txs: map<nat, Tx>, id: nat, tx: Tx, logged: seq<nat>, nextId: nat)
    requires TxsOk(txs, nextId) && LoggedOk(logged, txs) && TxOk(id, tx) && id < nextId && CanReplace(txs, id, tx)
    ensures
      && TxsOk(txs[id := tx], nextId) && LoggedOk(logged, txs[id := tx])
      && LogOf(logged, txs[id := tx]) == LogOf(logged, txs)
  {
    LogKept(logged, txs, txs[id := tx]);
  }

  /** Without an id, the first match tells whether any version of k is newer than id. */
  lemma NewestTells(ts: seq<seq<Entry>>, store: Store, k: Key, id: nat)
    requires AllSorted(ts) && TablesOrdered(ts) && StoreOfTables(ts) == store
    ensures var e := FirstMatch(ts, k, 0);
      (e.Some? && e.value.tid > id) <==> !NotBelow(store, k, id)
  {
    FirstMatchIsNewest(ts, k, 0);
    var e := FirstMatch(ts, k, 0);
    if !NotBelow(store, k, id) {
      var i :| (k, i) in store && i > id;
      assert e.Some?;
    }
  }

  /** The log after one more committed transaction. */
  lemma Committing(logged: seq<nat>, txs: map<nat, Tx>, id: nat, nextId: nat)
    requires TxsOk(txs, nextId) && LoggedOk(logged, txs) && id in txs && txs[id].status == Active
    requires TxOk(id, txs[id].(ops := txs[id].ops + [Record.Commit(id)]))
    ensures var tx := txs[id].(ops := txs[id].ops + [Record.Commit(id)], status := Committed);
      && AllFit(tx.ops) && TxsOk(txs[id := tx], nextId) && LoggedOk(logged + [id], txs[id := tx])
      && LogOf(logged + [id], txs[id := tx]) == LogOf(logged, txs) + tx.ops
  {
    var tx := txs[id].(ops := txs[id].ops + [Record.Commit(id)], status := Committed);
    assert (logged + [id])[..|logged|] == logged;
    LogKept(logged, txs, txs[id := tx]);
  }
}
