/** Tables from newest to oldest, and what writing, freezing and flushing do to them. */
module Layers {
  import opened Keys
  import opened Versions
  import opened SkipLists
  import opened MemTables

  /** The tables hold the versions of store, each sorted, and per key newer tables have newer ids. */
  ghost predicate Good(ts: seq<seq<Entry>>, store: Store) {
    AllSorted(ts) && TablesOrdered(ts) && StoreOfTables(ts) == store
  }

  /** No version of k in store is newer than tid. */
  ghost predicate NotBelow(store: Store, k: Key, tid: nat) {
    forall i :: (k, i) in store ==> i <= tid
  }

  /** What a reader gets to see: a deletion looks like absence. */
  function Shown(e: Option<Entry>): Option<Value> {
    if e.Some? && e.value.value != [] then Some(e.value.value) else None
  }

  /** r is the value of the newest version of k visible at t, unless that is a deletion. */
  ghost predicate Answers(store: Store, k: Key, t: nat, r: Option<Value>) {
    exists e :: IsNewest(store, k, t, e) && r == Shown(e)
  }

  /** The answer is unique. */
  lemma AnswerUnique(store: Store, k: Key, t: nat, r: Option<Value>, q: Option<Value>)
    requires Answers(store, k, t, r) && Answers(store, k, t, q)
    ensures r == q
  {
    var a :| IsNewest(store, k, t, a) && r == Shown(a);
    var b :| IsNewest(store, k, t, b) && q == Shown(b);
    NewestUnique(store, k, t, a, b);
  }

  /** The version of k with id i is the newest that a reader at t may see, where 0 sees all. */
  predicate NewestAt(store: Store, k: Key, t: nat, i: nat) {
    && (k, i) in store && (t == 0 || i <= t)
    && forall x :: x in store && x.0 == k && x.1 > i ==> t != 0 && x.1 > t
  }

  /** What an answer is: the value, not empty, of the newest version with an id up to t; none if there is
      no such version or its value is empty. */
  lemma AnswersMeaning(store: Store, k: Key, t: nat, r: Option<Value>)
    ensures Answers(store, k, t, r) <==>
      match r
      case Some(v) => v != [] && exists i :: NewestAt(store, k, t, i) && store[(k, i)] == v
      case None => forall i :: NewestAt(store, k, t, i) ==> store[(k, i)] == []
  {
    forall i | NewestAt(store, k, t, i)
      ensures IsNewest(store, k, t, Some(Entry(k, store[(k, i)], i)))
    {
    }
    forall e | IsNewest(store, k, t, Some(e))
      ensures e == Entry(k, e.value, e.tid) && NewestAt(store, k, t, e.tid) && store[(k, e.tid)] == e.value
    {
    }
    NewestExists(store, k, t);
    forall a, b | IsNewest(store, k, t, a) && IsNewest(store, k, t, b)
      ensures a == b
    {
      NewestUnique(store, k, t, a, b);
    }
  }

  lemma NewestExists(store: Store, k: Key, t: nat)
    ensures exists e :: IsNewest(store, k, t, e)
  {
    var ids := set x | x in store && x.0 == k && Visible(x.1, t) :: x.1;
    forall i: nat | (k, i) in store && Visible(i, t)
      ensures i in ids
    {
      var x := (k, i);
      assert x in store && x.0 == k && x.1 == i;
    }
    if ids == {} {
      assert IsNewest(store, k, t, None);
    } else {
      var m := GreatestOf(ids);
      assert IsNewest(store, k, t, Some(Entry(k, store[(k, m)], m)));
    }
  }

  lemma {:induction false} GreatestOf(ids: set<nat>) returns (m: nat)
    requires ids != {}
    ensures m in ids && forall i :: i in ids ==> i <= m
  {
    var x :| x in ids;
    m := x;
    if ids != {x} {
      var n := GreatestOf(ids - {x});
      m := if n > x then n else x;
      assert forall i :: i in ids ==> i == x || i in ids - {x};
    }
  }

  lemma GoodAnswers(ts: seq<seq<Entry>>, store: Store, k: Key, t: nat)
    requires Good(ts, store)
    ensures Answers(store, k, t, Shown(FirstMatch(ts, k, t)))
  {
    FirstMatchIsNewest(ts, k, t);
  }

  lemma {:induction false} FirstMatchConcat(a: seq<seq<Entry>>, b: seq<seq<Entry>>, k: Key, t: nat)
    ensures FirstMatch(a + b, k, t) == (if FirstMatch(a, k, t).Some? then FirstMatch(a, k, t) else FirstMatch(b, k, t))
  {
    if a == [] {
      assert a + b == b;
    } else {
      FirstMatchConcat(a[1..], b, k, t);
      assert (a + b)[1..] == a[1..] + b;
    }
  }

  /** An empty newest table changes nothing. */
  lemma EmptyOnTop(ts: seq<seq<Entry>>, store: Store)
    requires Good(ts, store)
    ensures Good([[]] + ts, store)
  {
    var all := [[]] + ts;
    assert all[1..] == ts;
    assert forall i :: 0 < i < |all| ==> all[i] == ts[i - 1];
    assert StoreOfTables(all) == StoreOfTables(ts) + map[];
  }

  lemma NothingGood()
    ensures Good([[]], map[])
  {
    var none: seq<seq<Entry>> := [];
    EmptyOnTop(none, map[]);
    assert [[]] + none == [[]];
  }

  lemma InTable(ts: seq<seq<Entry>>, i: nat, e: Entry, store: Store)
    requires i < |ts| && e in ts[i] && StoreOfTables(ts) == store
    ensures (e.key, e.tid) in store
  {
    var j :| 0 <= j < |ts[i]| && ts[i][j] == e;
    StoreHas(ts[i], e.key, e.tid);
    TablesHas(ts, e.key, e.tid);
  }

  /** Writing e into the newest table, when no version of its key is newer. */
  lemma WriteGood(ts: seq<seq<Entry>>, e: Entry, store: Store)
    requires ts != [] && Good(ts, store) && NotBelow(store, e.key, e.tid)
    ensures Good([PutSorted(ts[0], e)] + ts[1..], store[(e.key, e.tid) := e.value])
  {
    hide PutSorted, Sorted, TableAbove, StoreOf;
    var new0, rest := PutSorted(ts[0], e), ts[1..];
    var all := [new0] + rest;
    PutSortedSorted(ts[0], e);
    PutSortedStore(ts[0], e);
    assert all[1..] == rest;
    assert forall i :: 0 < i < |all| ==> all[i] == ts[i];
    WriteOrdered(ts, e, store);
    StoreWrite(StoreOfTables(rest), StoreOf(ts[0]), (e.key, e.tid), e.value);
  }

  lemma WriteOrdered(ts: seq<seq<Entry>>, e: Entry, store: Store)
    requires ts != [] && Good(ts, store) && NotBelow(store, e.key, e.tid)
    ensures TablesOrdered([PutSorted(ts[0], e)] + ts[1..])
  {
    hide PutSorted, Sorted, TableAbove, StoreOf, StoreOfTables;
    var all := [PutSorted(ts[0], e)] + ts[1..];
    forall i, j | 0 <= i < j < |all|
      ensures TableAbove(all[i], all[j])
    {
      assert all[j] == ts[j];
      if i == 0 {
        WriteAbove(ts, e, store, j);
      } else {
        assert all[i] == ts[i] && TableAbove(ts[i], ts[j]);
      }
    }
  }

  lemma StoreWrite(a: Store, b: Store, x: (Key, nat), v: Value)
    ensures a + b[x := v] == (a + b)[x := v]
  {
  }

  lemma WriteAbove(ts: seq<seq<Entry>>, e: Entry, store: Store, j: nat)
    requires 0 < j < |ts| && Good(ts, store) && NotBelow(store, e.key, e.tid)
    ensures TableAbove(PutSorted(ts[0], e), ts[j])
  {
    assert TableAbove(ts[0], ts[j]);
    forall a, b | a in PutSorted(ts[0], e) && b in ts[j] && a.key == b.key
      ensures a.tid >= b.tid
    {
      PutSortedMember(ts[0], e, a);
      InTable(ts, j, b, store);
    }
  }

  /** A write keeps the versions right even when it is not in order, and the order when it is. */
  lemma WriteKept(ts: seq<seq<Entry>>, e: Entry, store: Store)
    requires ts != [] && AllSorted(ts) && StoreOfTables(ts) == store
    ensures var w := [PutSorted(ts[0], e)] + ts[1..];
      && AllSorted(w) && StoreOfTables(w) == store[(e.key, e.tid) := e.value]
      && (TablesOrdered(ts) && NotBelow(store, e.key, e.tid) ==> TablesOrdered(w))
  {
    hide PutSorted, Sorted, TableAbove, StoreOf;
    var w := [PutSorted(ts[0], e)] + ts[1..];
    PutSortedSorted(ts[0], e);
    PutSortedStore(ts[0], e);
    assert w[1..] == ts[1..];
    assert forall i :: 0 < i < |w| ==> w[i] == ts[i];
    StoreWrite(StoreOfTables(ts[1..]), StoreOf(ts[0]), (e.key, e.tid), e.value);
    if TablesOrdered(ts) && NotBelow(store, e.key, e.tid) {
      WriteOrdered(ts, e, store);
    }
  }

  lemma EmptyKept(ts: seq<seq<Entry>>, store: Store)
    requires AllSorted(ts) && StoreOfTables(ts) == store
    ensures var all := [[]] + ts;
      AllSorted(all) && StoreOfTables(all) == store && (TablesOrdered(ts) ==> TablesOrdered(all))
  {
    var all := [[]] + ts;
    assert all[1..] == ts;
    assert forall i :: 0 < i < |all| ==> all[i] == ts[i - 1];
    assert StoreOfTables(all) == StoreOfTables(ts) + map[];
  }

  /** The same for a write that may freeze the table. */
  lemma AfterPutKept(ts: seq<seq<Entry>>, e: Entry, limit: nat, store: Store)
    requires ts != [] && AllSorted(ts) && StoreOfTables(ts) == store
    ensures var w := AfterPut(ts, e, limit);
      && AllSorted(w) && StoreOfTables(w) == store[(e.key, e.tid) := e.value]
      && (TablesOrdered(ts) && NotBelow(store, e.key, e.tid) ==> TablesOrdered(w))
  {
    hide PutSorted, AllSorted, TablesOrdered, StoreOfTables;
    WriteKept(ts, e, store);
    EmptyKept([PutSorted(ts[0], e)] + ts[1..], store[(e.key, e.tid) := e.value]);
  }

  /** put(): a write, and perhaps a freeze. */
  lemma PutGood(mem: seq<seq<Entry>>, disk: seq<seq<Entry>>, e: Entry, limit: nat, store: Store)
    requires mem != [] && Good(mem + disk, store) && NotBelow(store, e.key, e.tid)
    ensures Good(AfterPut(mem, e, limit) + disk, store[(e.key, e.tid) := e.value])
  {
    var ts := mem + disk;
    WriteGood(ts, e, store);
    var s := store[(e.key, e.tid) := e.value];
    var w := [PutSorted(mem[0], e)] + mem[1..];
    assert [PutSorted(ts[0], e)] + ts[1..] == w + disk;
    if Bytes(w[0]) > limit {
      EmptyOnTop(w + disk, s);
      assert [[]] + (w + disk) == ([[]] + w) + disk;
    }
  }

  /** flush(): the oldest table in memory becomes the newest on disk. */
  lemma FlushGood(mem: seq<seq<Entry>>, disk: seq<seq<Entry>>, store: Store)
    requires mem != [] && Good(mem + disk, store)
    ensures var v := FlushView(mem); Good(v[..|v| - 1] + ([v[|v| - 1]] + disk), store)
  {
    hide Good;
    var v := FlushView(mem);
    if |mem| == 1 {
      EmptyOnTop(mem + disk, store);
      assert [[]] + (mem + disk) == v + disk;
    }
    assert v[..|v| - 1] + ([v[|v| - 1]] + disk) == v + disk;
  }

  // ------------------------------------------------------------ unchecked writes

  /** Every version of e's key in an older table that is newer than e also stands in the newest table. */
  ghost predicate NothingBuried(ts: seq<seq<Entry>>, e: Entry)
    requires ts != []
  {
    forall j, b :: 0 < j < |ts| && b in ts[j] && b.key == e.key && b.tid > e.tid ==> (e.key, b.tid) in StoreOf(ts[0])
  }

  /** First match finds the newest version of k visible at t. */
  ghost predicate RightAt(ts: seq<seq<Entry>>, store: Store, k: Key, t: nat) {
    IsNewest(store, k, t, FirstMatch(ts, k, t))
  }

  /** And does so at every t. */
  ghost predicate ReadsRight(ts: seq<seq<Entry>>, store: Store, k: Key) {
    forall t :: RightAt(ts, store, k, t)
  }

  /** A write without the conflict check, as read-committed transactions do it: lookups of its
      key stay right for every reader exactly when nothing newer is buried in an older table. */
  lemma UncheckedWrite(ts: seq<seq<Entry>>, e: Entry, store: Store)
    requires ts != [] && Good(ts, store)
    ensures var w, s := [PutSorted(ts[0], e)] + ts[1..], store[(e.key, e.tid) := e.value];
      ReadsRight(w, s, e.key) <==> NothingBuried(ts, e)
  {
    var w, s := [PutSorted(ts[0], e)] + ts[1..], store[(e.key, e.tid) := e.value];
    if NothingBuried(ts, e) {
      forall t
        ensures RightAt(w, s, e.key, t)
      {
        UncheckedRight(ts, e, store, t);
      }
    } else {
      var j, b :| 0 < j < |ts| && b in ts[j] && b.key == e.key && b.tid > e.tid && (e.key, b.tid) !in StoreOf(ts[0]);
      UncheckedWrong(ts, e, store, j, b);
      assert !RightAt(w, s, e.key, b.tid);
    }
  }

  lemma UncheckedRight(ts: seq<seq<Entry>>, e: Entry, store: Store, t: nat)
    requires ts != [] && Good(ts, store) && NothingBuried(ts, e)
    ensures IsNewest(store[(e.key, e.tid) := e.value], e.key, t, FirstMatch([PutSorted(ts[0], e)] + ts[1..], e.key, t))
  {
    var k, new0, s := e.key, PutSorted(ts[0], e), store[(e.key, e.tid) := e.value];
    var w := [new0] + ts[1..];
    assert w[1..] == ts[1..];
    WriteKept(ts, e, store);
    PutSortedSorted(ts[0], e);
    PutSortedStore(ts[0], e);
    LookupIsNewest(new0, k, t);
    var a := Lookup(new0, k, t);
    if a.Some? {
      forall i | (k, i) in s && Visible(i, t)
        ensures i <= a.value.tid
      {
        if (k, i) !in StoreOf(new0) {
          BuriedBelow(ts, e, store, i, a.value, t);
        }
      }
    } else {
      LookupIsNewest(ts[0], k, t);
      assert Lookup(ts[0], k, t).None?;
      FirstMatchIsNewest(ts, k, t);
      assert !Visible(e.tid, t);
    }
  }

  /** A visible version found only in an older table is not newer than what the newest table shows. */
  lemma BuriedBelow(ts: seq<seq<Entry>>, e: Entry, store: Store, i: nat, a: Entry, t: nat)
    requires ts != [] && Good(ts, store) && NothingBuried(ts, e) && (e.key, i) in store && Visible(i, t)
    requires IsNewest(StoreOf(PutSorted(ts[0], e)), e.key, t, Some(a)) && (e.key, i) !in StoreOf(PutSorted(ts[0], e))
    ensures i <= a.tid
  {
    var k := e.key;
    PutSortedStore(ts[0], e);
    TablesHas(ts, k, i);
    var j :| 0 <= j < |ts| && (k, i) in StoreOf(ts[j]);
    StoreHas(ts[j], k, i);
    var q :| 0 <= q < |ts[j]| && ts[j][q].key == k && ts[j][q].tid == i;
    assert ts[j][q] in ts[j];
    assert i <= e.tid;
    if !Visible(e.tid, t) {
      assert (k, a.tid) in StoreOf(ts[0]);
      StoreHas(ts[0], k, a.tid);
      var p :| 0 <= p < |ts[0]| && ts[0][p].key == k && ts[0][p].tid == a.tid;
      assert TableAbove(ts[0], ts[j]) && ts[0][p] in ts[0];
    }
  }

  lemma UncheckedWrong(ts: seq<seq<Entry>>, e: Entry, store: Store, j: nat, b: Entry)
    requires ts != [] && Good(ts, store) && 0 < j < |ts| && b in ts[j] && b.key == e.key && b.tid > e.tid
    requires (e.key, b.tid) !in StoreOf(ts[0])
    ensures !IsNewest(store[(e.key, e.tid) := e.value], e.key, b.tid, FirstMatch([PutSorted(ts[0], e)] + ts[1..],
        e.key, b.tid))
  {
    var k, t, new0 := e.key, b.tid, PutSorted(ts[0], e);
    PutSortedSorted(ts[0], e);
    PutSortedStore(ts[0], e);
    LookupIsNewest(new0, k, t);
    assert (k, e.tid) in StoreOf(new0) && Visible(e.tid, t);
    var a := Lookup(new0, k, t);
    assert a.Some? && a.value.tid < t;
    InTable(ts, j, b, store);
  }

  /** Such a write happens: a transaction with id 1 commits a key that id 2 wrote and froze before. */
  lemma BuriedExample(k: Key)
    ensures var ts, e := [[], [Entry(k, [2], 2)]], Entry(k, [1], 1);
      && Good(ts, map[(k, 2) := [2]]) && !NothingBuried(ts, e)
      && FirstMatch([PutSorted(ts[0], e)] + ts[1..], k, 0) == Some(e)
  {
    var ts, b, e := [[], [Entry(k, [2], 2)]], Entry(k, [2], 2), Entry(k, [1], 1);
    assert ts[1..] == [[b]] && [[b]][1..] == [] && [b][1..] == [];
    assert StoreOf([b]) == map[(k, 2) := [2]];
    assert StoreOfTables([[b]]) == map[(k, 2) := [2]];
    assert b in ts[1];
    assert [PutSorted(ts[0], e)] + ts[1..] == [[e], [b]];
  }

  // ------------------------------------------------------------ commits over files

  /** The store after some writes. */
  function WriteAll(store: Store, es: seq<Entry>): Store {
    if es == [] then store
    else
      var e := es[|es| - 1];
      WriteAll(store, es[..|es| - 1])[(e.key, e.tid) := e.value]
  }

  /** The writes of a transaction: one for each of its keys, all under its id. */
  ghost predicate OneEach(es: seq<Entry>, id: nat) {
    && (forall i :: 0 <= i < |es| ==> es[i].tid == id)
    && (forall i, j :: 0 <= i < j < |es| ==> es[i].key != es[j].key)
  }

  /** Every key reads right at every id. */
  ghost predicate AllRight(ts: seq<seq<Entry>>, store: Store) {
    forall k :: ReadsRight(ts, store, k)
  }

  /** The stores have the same versions of k. */
  ghost predicate SameFor(s: Store, s': Store, k: Key) {
    forall i :: ((k, i) in s <==> (k, i) in s') && ((k, i) in s && (k, i) in s' ==> s[(k, i)] == s'[(k, i)])
  }

  /** The conflict check of a commit looks at memory only.  When it passes, reads stay right for all
      keys and ids if and only if no file holds a newer version of a written key. */
  lemma CommitOverFiles(mem: seq<seq<Entry>>, disk: seq<seq<Entry>>, store: Store, es: seq<Entry>, id: nat)
    requires mem != [] && Good(mem + disk, store) && OneEach(es, id)
    requires forall e :: e in es ==> NotBelow(StoreOfTables(mem), e.key, id)
    ensures AllRight(PutAll(mem + disk, es), WriteAll(store, es))
      <==> forall e :: e in es ==> NotBelow(StoreOfTables(disk), e.key, id)
  {
    hide Good, PutAll, WriteAll, OneEach, NotBelow, FirstMatch, PutSorted, StoreOfTables, ReadsRight, NothingBuried;
    var ts := mem + disk;
    var w, s := PutAll(ts, es), WriteAll(store, es);
    forall e | e in es
      ensures ReadsRight(w, s, e.key) <==> NotBelow(StoreOfTables(disk), e.key, id)
    {
      WrittenKey(ts, store, es, id, e);
      UncheckedWrite(ts, e, store);
      BuriedInFiles(mem, disk, store, e, id, es);
    }
    forall k | forall e :: e in es ==> e.key != k
      ensures ReadsRight(w, s, k)
    {
      OtherKey(ts, store, es, k);
    }
  }

  lemma BuriedInFiles(mem: seq<seq<Entry>>, disk: seq<seq<Entry>>, store: Store, e: Entry, id: nat, es: seq<Entry>)
    requires
      && mem != [] && Good(mem + disk, store) && NotBelow(StoreOfTables(mem), e.key, id) && e in es && OneEach(es, id)
    ensures NothingBuried(mem + disk, e) <==> NotBelow(StoreOfTables(disk), e.key, id)
  {
    hide StoreOf, StoreOfTables, Sorted, TableAbove;
    var ts := mem + disk;
    forall i: nat
      ensures (e.key, i) in StoreOfTables(disk) <==> exists j :: |mem| <= j < |ts| && (e.key, i) in StoreOf(ts[j])
      ensures forall j :: 0 <= j < |mem| && (e.key, i) in StoreOf(ts[j]) ==> i <= id
    {
      TablesHas(disk, e.key, i);
      assert forall j :: 0 <= j < |disk| ==> disk[j] == ts[|mem| + j];
      assert forall j :: |mem| <= j < |ts| ==> disk[j - |mem|] == ts[j];
      TablesHas(mem, e.key, i);
      assert forall j :: 0 <= j < |mem| ==> mem[j] == ts[j];
    }
    forall j, b: Entry | 0 <= j < |ts| && b in ts[j] && b.key == e.key
      ensures (e.key, b.tid) in StoreOf(ts[j])
    {
      StoreHas(ts[j], e.key, b.tid);
    }
    if i :| (e.key, i) in StoreOfTables(disk) && i > id {
      var j :| |mem| <= j < |ts| && (e.key, i) in StoreOf(ts[j]);
      StoreHas(ts[j], e.key, i);
      var q :| 0 <= q < |ts[j]| && ts[j][q].key == e.key && ts[j][q].tid == i;
      assert ts[j][q] in ts[j];
    }
  }

  /** Tables whose stores agree on a key find the same versions of it. */
  lemma SameLookup(a: seq<Entry>, b: seq<Entry>, k: Key, t: nat)
    requires Sorted(a) && Sorted(b) && SameFor(StoreOf(a), StoreOf(b), k)
    ensures Lookup(a, k, t) == Lookup(b, k, t)
  {
    LookupIsNewest(a, k, t);
    LookupIsNewest(b, k, t);
    SameNewest(StoreOf(a), StoreOf(b), k, t, Lookup(a, k, t));
    NewestUnique(StoreOf(b), k, t, Lookup(a, k, t), Lookup(b, k, t));
  }

  lemma SameNewest(s: Store, s': Store, k: Key, t: nat, r: Option<Entry>)
    requires SameFor(s, s', k)
    ensures IsNewest(s, k, t, r) <==> IsNewest(s', k, t, r)
  {
  }

  /** The newest table takes all the writes. */
  lemma {:induction false} PutAllTables(ts: seq<seq<Entry>>, es: seq<Entry>)
    requires ts != [] && Sorted(ts[0])
    ensures var w := PutAll(ts, es);
      w[1..] == ts[1..] && Sorted(w[0]) && StoreOf(w[0]) == WriteAll(StoreOf(ts[0]), es)
  {
    hide Sorted, PutSorted, StoreOf;
    if es != [] {
      var n := |es| - 1;
      PutAllTables(ts, es[..n]);
      var before := PutAll(ts, es[..n]);
      PutSortedSorted(before[0], es[n]);
      PutSortedStore(before[0], es[n]);
    }
  }

  lemma {:induction false} WriteOther(s: Store, es: seq<Entry>, k: Key)
    requires forall e :: e in es ==> e.key != k
    ensures SameFor(s, WriteAll(s, es), k)
  {
    if es != [] {
      assert es[|es| - 1] in es;
      WriteOther(s, es[..|es| - 1], k);
    }
  }

  lemma {:induction false} WriteOwn(s: Store, es: seq<Entry>, id: nat, e: Entry)
    requires OneEach(es, id) && e in es
    ensures SameFor(s[(e.key, e.tid) := e.value], WriteAll(s, es), e.key)
  {
    var n := |es| - 1;
    var front, l := es[..n], es[n];
    assert es == front + [l];
    if l == e {
      forall x | x in front
        ensures x.key != e.key
      {
      }
      WriteOther(s, front, e.key);
    } else {
      WriteOwn(s, front, id, e);
      assert l.key != e.key;
    }
  }

  lemma {:induction false} OtherKey(ts: seq<seq<Entry>>, store: Store, es: seq<Entry>, k: Key)
    requires ts != [] && Good(ts, store) && forall e :: e in es ==> e.key != k
    ensures ReadsRight(PutAll(ts, es), WriteAll(store, es), k)
  {
    hide Sorted, StoreOf, WriteAll, PutAll, TablesOrdered, StoreOfTables, IsNewest, Lookup, SameFor;
    var w, s := PutAll(ts, es), WriteAll(store, es);
    PutAllTables(ts, es);
    WriteOther(StoreOf(ts[0]), es, k);
    WriteOther(store, es, k);
    forall t
      ensures RightAt(w, s, k, t)
    {
      SameLookup(ts[0], w[0], k, t);
      FirstMatchIsNewest(ts, k, t);
      SameNewest(store, s, k, t, FirstMatch(ts, k, t));
    }
  }

  /** For one of its keys, a transaction is the write of that key. */
  lemma {:induction false} WrittenKey(ts: seq<seq<Entry>>, store: Store, es: seq<Entry>, id: nat, e: Entry)
    requires ts != [] && Good(ts, store) && OneEach(es, id) && e in es
    ensures ReadsRight(PutAll(ts, es), WriteAll(store, es), e.key)
      <==> ReadsRight([PutSorted(ts[0], e)] + ts[1..], store[(e.key, e.tid) := e.value], e.key)
  {
    hide Sorted, StoreOf, WriteAll, PutAll, TablesOrdered, StoreOfTables, IsNewest, Lookup, PutSorted, OneEach, SameFor;
    var w, s := PutAll(ts, es), WriteAll(store, es);
    var w', s', k := [PutSorted(ts[0], e)] + ts[1..], store[(e.key, e.tid) := e.value], e.key;
    assert w'[1..] == ts[1..];
    PutAllTables(ts, es);
    PutSortedSorted(ts[0], e);
    PutSortedStore(ts[0], e);
    WriteOwn(StoreOf(ts[0]), es, id, e);
    WriteOwn(store, es, id, e);
    forall t
      ensures RightAt(w, s, k, t) <==> RightAt(w', s', k, t)
    {
      SameLookup(w'[0], w[0], k, t);
      SameNewest(s', s, k, t, FirstMatch(w, k, t));
    }
  }

  // ------------------------------------------------------------ memory over files

  /** Versions of k found only in the files are older than all that memory has. */
  ghost predicate OlderBelow(upper: Store, lower: Store, k: Key) {
    forall i, j :: (k, i) in lower && (k, i) !in upper && (k, j) in upper ==> i < j
  }

  /** Tables in memory over tables in files, each in order by itself: reads of a key are right if
      and only if the versions that only the files have are older than all in memory. */
  lemma StackedRight(mem: seq<seq<Entry>>, disk: seq<seq<Entry>>, upper: Store, lower: Store, k: Key)
    requires Good(mem, upper) && Good(disk, lower)
    ensures ReadsRight(mem + disk, lower + upper, k) <==> OlderBelow(upper, lower, k)
  {
    if OlderBelow(upper, lower, k) {
      forall t
        ensures RightAt(mem + disk, lower + upper, k, t)
      {
        StackedReads(mem, disk, upper, lower, k, t);
      }
    } else {
      var i, j :| (k, i) in lower && (k, i) !in upper && (k, j) in upper && i >= j;
      StackedReads(mem, disk, upper, lower, k, i);
      assert !RightAt(mem + disk, lower + upper, k, i);
    }
  }

  lemma StackedReads(mem: seq<seq<Entry>>, disk: seq<seq<Entry>>, upper: Store, lower: Store, k: Key, t: nat)
    requires Good(mem, upper) && Good(disk, lower)
    ensures OlderBelow(upper, lower, k) ==> RightAt(mem + disk, lower + upper, k, t)
    ensures (k, t) in lower && (k, t) !in upper && (exists j :: (k, j) in upper && t >= j) ==>
      !RightAt(mem + disk, lower + upper, k, t)
  {
    hide FirstMatch, AllSorted, TablesOrdered, StoreOfTables;
    FirstMatchConcat(mem, disk, k, t);
    FirstMatchIsNewest(mem, k, t);
    FirstMatchIsNewest(disk, k, t);
  }

  // ------------------------------------------------------------ histories

  /** The versions after a sequence of writes. */
  function Replay(ws: seq<Entry>): Store {
    if ws == [] then map[] else Replay(ws[..|ws| - 1])[(ws[|ws| - 1].key, ws[|ws| - 1].tid) := ws[|ws| - 1].value]
  }

  /** The last write to k that a reader at t may see. */
  function LastWrite(ws: seq<Entry>, k: Key, t: nat): Option<Entry> {
    if ws == [] then None
    else
      var w := ws[|ws| - 1];
      if w.key == k && Visible(w.tid, t) then Some(w) else LastWrite(ws[..|ws| - 1], k, t)
  }

  /** Write i is the last one to k with an id up to t, or the last of all when t is 0. */
  predicate LastAt(ws: seq<Entry>, k: Key, t: nat, i: int) {
    && 0 <= i < |ws| && ws[i].key == k && (t == 0 || ws[i].tid <= t)
    && forall j :: i < j < |ws| && ws[j].key == k ==> t != 0 && ws[j].tid > t
  }

  /** What is shown of the last write: its value, or nothing if that is empty or there is no such write. */
  ghost predicate ShowsLast(ws: seq<Entry>, k: Key, t: nat, r: Option<Value>) {
    match r
    case Some(v) => v != [] && exists i :: LastAt(ws, k, t, i) && ws[i].value == v
    case None => forall i :: LastAt(ws, k, t, i) ==> ws[i].value == []
  }

  lemma {:induction false} LastWriteMeaning(ws: seq<Entry>, k: Key, t: nat)
    ensures ShowsLast(ws, k, t, Shown(LastWrite(ws, k, t)))
    ensures LastWrite(ws, k, t).Some? ==> exists i :: LastAt(ws, k, t, i) && ws[i] == LastWrite(ws, k, t).value
    ensures LastWrite(ws, k, t).None? ==> forall i :: !LastAt(ws, k, t, i)
  {
    if ws != [] {
      var n := |ws| - 1;
      var w, front := ws[n], ws[..n];
      if w.key == k && Visible(w.tid, t) {
        assert LastAt(ws, k, t, n);
      } else {
        LastWriteMeaning(front, k, t);
        assert forall i :: 0 <= i < n ==> front[i] == ws[i];
        assert forall i :: LastAt(ws, k, t, i) <==> LastAt(front, k, t, i);
      }
    }
  }

  /** Writes to one key come with non-decreasing ids. */
  ghost predicate Rising(ws: seq<Entry>) {
    forall i, j :: 0 <= i < j < |ws| && ws[i].key == ws[j].key ==> ws[i].tid <= ws[j].tid
  }

  lemma {:induction false} ReplayHas(ws: seq<Entry>, k: Key, i: nat)
    ensures (k, i) in Replay(ws) <==> exists j :: 0 <= j < |ws| && ws[j].key == k && ws[j].tid == i
  {
    if ws != [] {
      var front := ws[..|ws| - 1];
      ReplayHas(front, k, i);
      if j :| 0 <= j < |ws| && ws[j].key == k && ws[j].tid == i {
        assert j < |front| ==> front[j] == ws[j];
      }
      if (k, i) in Replay(front) {
        var j :| 0 <= j < |front| && front[j].key == k && front[j].tid == i;
        assert ws[j] == front[j];
      }
    }
  }

  /** With rising ids, the last visible write is the newest visible version. */
  lemma {:induction false} LastWriteIsNewest(ws: seq<Entry>, k: Key, t: nat)
    requires Rising(ws)
    ensures IsNewest(Replay(ws), k, t, LastWrite(ws, k, t))
  {
    if ws != [] {
      var front, w := ws[..|ws| - 1], ws[|ws| - 1];
      assert forall i :: 0 <= i < |front| ==> front[i] == ws[i];
      LastWriteIsNewest(front, k, t);
      if w.key == k && Visible(w.tid, t) {
        forall i | (k, i) in Replay(ws) && Visible(i, t)
          ensures i <= w.tid
        {
          ReplayHas(ws, k, i);
        }
      } else if LastWrite(front, k, t).Some? {
        var e := LastWrite(front, k, t).value;
        assert (k, e.tid) != (w.key, w.tid);
      }
    }
  }

  /** A batch adds its writes to the active table, later ones over earlier ones, and to no other. */
  lemma BatchStore(ts: seq<seq<Entry>>, es: seq<Entry>)
    requires ts != [] && Sorted(ts[0])
    ensures var w := PutAll(ts, es);
      w[1..] == ts[1..] && Sorted(w[0]) && StoreOf(w[0]) == StoreOf(ts[0]) + Replay(es)
  {
    PutAllTables(ts, es);
    WriteAllReplay(StoreOf(ts[0]), es);
  }

  lemma {:induction false} WriteAllReplay(s: Store, es: seq<Entry>)
    ensures WriteAll(s, es) == s + Replay(es)
  {
    if es != [] {
      WriteAllReplay(s, es[..|es| - 1]);
    }
  }

  /** Rising ids are exactly what the engine asks of each next write. */
  lemma RisingAllowed(ws: seq<Entry>)
    ensures Rising(ws) <==> forall n :: 0 <= n < |ws| ==> NotBelow(Replay(ws[..n]), ws[n].key, ws[n].tid)
  {
    if Rising(ws) {
      forall n, i | 0 <= n < |ws| && (ws[n].key, i) in Replay(ws[..n])
        ensures i <= ws[n].tid
      {
        ReplayHas(ws[..n], ws[n].key, i);
      }
    } else {
      var i, j :| 0 <= i < j < |ws| && ws[i].key == ws[j].key && ws[i].tid > ws[j].tid;
      assert ws[..j][i] == ws[i];
      ReplayHas(ws[..j], ws[j].key, ws[i].tid);
    }
  }

  /** So every reader sees the last write it may see. */
  lemma AnswerIsLastWrite(ws: seq<Entry>, k: Key, t: nat, r: Option<Value>)
    requires Rising(ws) && Answers(Replay(ws), k, t, r)
    ensures r == Shown(LastWrite(ws, k, t))
  {
    LastWriteIsNewest(ws, k, t);
    AnswerUnique(Replay(ws), k, t, r, Shown(LastWrite(ws, k, t)));
  }
}
