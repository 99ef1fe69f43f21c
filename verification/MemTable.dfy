/** The memtable: one active skip list and the frozen ones, newest first. */
module MemTables {
  import opened Keys
  import opened Versions
  import opened SkipLists

  /** List l and its nodes lie in repr. */
  ghost predicate Owned(l: SkipList, repr: set<object>)
    reads repr
  {
    l in repr && (forall n :: n in l.nodes ==> n in repr) && l.Valid()
  }

  /** The lists are owned and share nothing. */
  ghost predicate Apart(ls: seq<SkipList>, repr: set<object>)
    reads repr
  {
    && (forall i :: 0 <= i < |ls| ==> Owned(ls[i], repr))
    && (forall i, j :: 0 <= i < j < |ls| ==> Disjoint(ls[i], ls[j], repr))
  }

  ghost predicate Disjoint(a: SkipList, b: SkipList, repr: set<object>)
    reads repr
  {
    a in repr && b in repr && a != b && a.nodes !! b.nodes
  }

  lemma ApartGrow(ls: seq<SkipList>, r0: set<object>, r1: set<object>)
    requires Apart(ls, r0) && r0 <= r1
    ensures Apart(ls, r1) && ContentsOf(ls, r1) == ContentsOf(ls, r0)
  {
    hide SkipList.Valid, ContentsOf;
    forall i | 0 <= i < |ls|
      ensures Owned(ls[i], r1)
    {
      assert Owned(ls[i], r0);
    }
    forall i, j | 0 <= i < j < |ls|
      ensures Disjoint(ls[i], ls[j], r1)
    {
      assert Disjoint(ls[i], ls[j], r0);
    }
  }

  /** One more list in front. */
  lemma ApartCons(l: SkipList, ls: seq<SkipList>, r: set<object>)
    requires Owned(l, r) && Apart(ls, r) && forall i :: 0 <= i < |ls| ==> Disjoint(l, ls[i], r)
    ensures Apart([l] + ls, r) && ContentsOf([l] + ls, r) == [l.Listed()] + ContentsOf(ls, r)
  {
    hide SkipList.Valid;
    var all := [l] + ls;
    assert all[1..] == ls;
    forall i | 0 <= i < |all|
      ensures Owned(all[i], r)
    {
      assert i > 0 ==> Owned(ls[i - 1], r);
    }
    forall i, j | 0 <= i < j < |all|
      ensures Disjoint(all[i], all[j], r)
    {
      assert if i == 0 then Disjoint(l, ls[j - 1], r) else Disjoint(ls[i - 1], ls[j - 1], r);
    }
  }

  /** What the lists hold. */
  ghost function ContentsOf(ls: seq<SkipList>, repr: set<object>): (ts: seq<seq<Entry>>)
    requires Apart(ls, repr)
    reads repr
    ensures |ts| == |ls| && forall i :: 0 <= i < |ls| ==> ts[i] == ls[i].Listed()
  {
    if ls == [] then [] else [ls[0].Listed()] + ContentsOf(ls[1..], repr)
  }

  function TotalBytes(ts: seq<seq<Entry>>): nat {
    if ts == [] then 0 else Bytes(ts[0]) + TotalBytes(ts[1..])
  }

  /** The tables after writing e: the active one is frozen when it has grown past the limit. */
  function AfterPut(ts: seq<seq<Entry>>, e: Entry, limit: nat): seq<seq<Entry>>
    requires ts != []
  {
    FreezeFull([PutSorted(ts[0], e)] + ts[1..], limit)
  }

  function FreezeFull(ts: seq<seq<Entry>>, limit: nat): seq<seq<Entry>>
    requires ts != []
  {
    if Bytes(ts[0]) > limit then [[]] + ts else ts
  }

  function PutAll(ts: seq<seq<Entry>>, es: seq<Entry>): (r: seq<seq<Entry>>)
    requires ts != []
    ensures r != []
  {
    if es == [] then ts
    else
      var before := PutAll(ts, es[..|es| - 1]);
      [PutSorted(before[0], es[|es| - 1])] + before[1..]
  }

  class MemTable {
    const maxLevel: nat
    const perMemLimit: nat
    var current: SkipList
    var frozen: seq<SkipList>
    var frozenBytes: int
    ghost var cold: set<object>

    /** The frozen lists lie in `cold`, which the active list does not reach. */
    ghost predicate Valid()
      reads this, current, current.nodes, cold
    {
      && current.Valid() && current.maxLevel == maxLevel > 0
      && Apart(frozen, cold) && current !in cold && (forall n :: n in current.nodes ==> n !in cold) && this !in cold
      && frozenBytes == TotalBytes(ContentsOf(frozen, cold))
    }

    ghost function Repr(): set<object>
      reads this, current
    {
      {this, current} + (set n | n in current.nodes) + cold
    }

    /** The versions, newest table first. */
    ghost function Tables(): (ts: seq<seq<Entry>>)
      requires Valid()
      reads this, current, current.nodes, cold
      ensures |ts| == 1 + |frozen|
    {
      [current.Listed()] + ContentsOf(frozen, cold)
    }

    constructor (maxLevel: nat, perMemLimit: nat)
      requires maxLevel > 0
      ensures Valid() && fresh(Repr()) && cold == {} && Tables() == [[]] && frozenBytes == 0
      ensures this.maxLevel == maxLevel && this.perMemLimit == perMemLimit
    {
      this.maxLevel, this.perMemLimit := maxLevel, perMemLimit;
      current := new SkipList(maxLevel);
      frozen := [];
      frozenBytes := 0;
      cold := {};
    }

    method PutCurrent(key: Key, value: Value, tid: nat, draw: nat, bits: seq<bool>)
      requires Valid() && 1 <= draw <= maxLevel && |bits| >= maxLevel
      modifies current, current.nodes
      ensures Valid() && fresh(Repr() - old(Repr())) && fresh(current.nodes - old(current.nodes))
      ensures Tables() == [PutSorted(old(Tables())[0], Entry(key, value, tid))] + old(Tables())[1..]
    {
      hide SkipList.Valid, ContentsOf, Apart, TotalBytes;
      current.Put(key, value, tid, draw, bits);
    }

    /** The active table becomes the newest frozen one. */
    method Freeze()
      requires Valid()
      modifies this
      ensures Valid() && fresh(Repr() - old(Repr())) && Tables() == [[]] + old(Tables())
    {
      hide SkipList.Valid, ContentsOf, Apart, TotalBytes, Disjoint;
      Adopt();
      Renew();
    }

    /** Puts the active list in front of the frozen ones. */
    method Adopt()
      requires Valid()
      modifies `frozenBytes, `frozen, `cold
      ensures Apart(frozen, cold) && this !in cold && frozenBytes == TotalBytes(ContentsOf(frozen, cold))
      ensures ContentsOf(frozen, cold) == old(Tables()) && cold <= old(Repr())
    {
      hide SkipList.Valid, ContentsOf, Apart, TotalBytes, Disjoint;
      ghost var all := cold + {current} + (set n | n in current.nodes);
      Adopted(current, frozen, cold, all);
      var size := CurrentSize();
      assert this !in all;
      frozenBytes, frozen, cold := frozenBytes + size, [current] + frozen, all;
    }

    /** A new active table. */
    method Renew()
      requires
        && Apart(frozen, cold) && this !in cold && maxLevel > 0 && frozenBytes == TotalBytes(ContentsOf(frozen, cold))
      modifies `current
      ensures Valid() && fresh(current) && fresh(current.nodes) && Tables() == [[]] + old(ContentsOf(frozen, cold))
    {
      hide SkipList.Valid, ContentsOf, Apart, TotalBytes, Disjoint;
      current := new SkipList(maxLevel);
    }

    /** put(): writes into the active table, and freezes it if it got too large. */
    method Put(key: Key, value: Value, tid: nat, draw: nat, bits: seq<bool>)
      requires Valid() && 1 <= draw <= maxLevel && |bits| >= maxLevel
      modifies this, current, current.nodes
      ensures Valid() && fresh(Repr() - old(Repr()))
      ensures Tables() == AfterPut(old(Tables()), Entry(key, value, tid), perMemLimit)
      ensures var put := PutSorted(old(Tables())[0], Entry(key, value, tid));
        && (Bytes(put) > perMemLimit ==> |Tables()| == |old(Tables())| + 1 && Tables()[0] == [] && Tables()[1] == put)
        && (Bytes(put) <= perMemLimit ==> |Tables()| == |old(Tables())| && Tables()[0] == put)
    {
      hide Valid, Tables;
      PutCurrent(key, value, tid, draw, bits);
      var size := CurrentSize();
      if size > perMemLimit {
        Freeze();
      }
    }

    method CurrentSize() returns (n: int)
      requires Valid()
      ensures n == Bytes(Tables()[0])
    {
      n := current.sizeBytes;
    }

    method TotalSize() returns (n: int)
      requires Valid()
      ensures n == TotalBytes(Tables())
    {
      n := frozenBytes + current.sizeBytes;
      assert Tables()[1..] == ContentsOf(frozen, cold);
    }

    /** remove(): a deletion is the empty value. */
    method Remove(key: Key, tid: nat, draw: nat, bits: seq<bool>)
      requires Valid() && 1 <= draw <= maxLevel && |bits| >= maxLevel
      modifies this, current, current.nodes
      ensures Valid() && fresh(Repr() - old(Repr()))
      ensures Tables() == AfterPut(old(Tables()), Entry(key, [], tid), perMemLimit)
    {
      Put(key, [], tid, draw, bits);
    }

    /** put_batch(): all pairs under one id, then at most one freeze. */
    method PutBatch(kvs: seq<(Key, Value)>, tid: nat, draws: seq<nat>, bits: seq<seq<bool>>)
      requires Valid() && |draws| == |bits| == |kvs|
      requires forall i :: 0 <= i < |kvs| ==> 1 <= draws[i] <= maxLevel && |bits[i]| >= maxLevel
      modifies this, current, current.nodes
      ensures Valid() && fresh(Repr() - old(Repr()))
      ensures Tables() == FreezeFull(PutAll(old(Tables()), Stamped(kvs, tid)), perMemLimit)
    {
      hide Valid, Tables;
      ghost var es := Stamped(kvs, tid);
      for i := 0 to |kvs|
        invariant
          && Valid() && fresh(Repr() - old(Repr())) && current == old(current)
          && fresh(current.nodes - old(current.nodes))
        invariant Tables() == PutAll(old(Tables()), es[..i])
      {
        PutCurrent(kvs[i].0, kvs[i].1, tid, draws[i], bits[i]);
        assert es[..i + 1][..i] == es[..i];
      }
      assert es[..|kvs|] == es;
      var size := CurrentSize();
      if size > perMemLimit {
        Freeze();
      }
    }

    /** flush_last(): takes out the oldest table, freezing the active one first if it is the only one. */
    method FlushLast() returns (data: Option<seq<Entry>>)
      requires Valid()
      modifies this
      ensures Valid() && fresh(Repr() - old(Repr()))
      ensures data == None <==> old(Tables()) == [[]]
      ensures data == None ==> Tables() == old(Tables())
      ensures data.Some? ==>
        var ts := FlushView(old(Tables())); Tables() == ts[..|ts| - 1] && data == Some(ts[|ts| - 1])
    {
      hide Valid, Tables;
      NoFrozen();
      if frozen == [] {
        var size := CurrentSize();
        BytesZero(Tables()[0]);
        assert Tables() == [Tables()[0]];
        if size == 0 {
          return None;
        }
        Freeze();
        NoFrozen();
      }
      ghost var ts := Tables();
      var d := PopLast();
      assert ts[..|ts| - 1] == Tables();
      data := Some(d);
    }

    ghost method NoFrozen()
      requires Valid()
      ensures |Tables()| == 1 + |frozen|
    {
    }

    /** Removes the oldest frozen list and reads its versions. */
    method PopLast() returns (d: seq<Entry>)
      requires Valid() && frozen != []
      modifies this
      ensures Valid() && Repr() <= old(Repr())
      ensures Tables() + [d] == old(Tables())
    {
      hide SkipList.Valid, ContentsOf, TotalBytes, Disjoint, Bytes, Apart;
      ApartFront(frozen, cold);
      var n := |frozen| - 1;
      var table := frozen[n];
      d := ReadOut(table);
      var size := SizeOf(table);
      ghost var rest := ContentsOf(frozen[..n], cold);
      assert Tables() == [current.Listed()] + rest + [d];
      frozenBytes, frozen := frozenBytes - size, frozen[..n];
      assert Tables() == [current.Listed()] + rest;
    }

    /** The newest table with a visible version of key decides. */
    method Get(key: Key, t: nat) returns (r: Option<Entry>)
      requires Valid()
      ensures r == FirstMatch(Tables(), key, t)
    {
      hide SkipList.Valid, ContentsOf, Lookup, FirstMatch, TotalBytes, Disjoint;
      ghost var ts := Tables();
      assert ts[0..] == ts;
      FirstMatchStep(ts, 0, key, t);
      r := GetIn(current, key, t);
      if r.Some? {
        return;
      }
      for i := 0 to |frozen|
        invariant FirstMatch(ts, key, t) == FirstMatch(ts[i + 1..], key, t)
      {
        assert Owned(frozen[i], cold) && ts[i + 1] == frozen[i].Listed();
        FirstMatchStep(ts, i + 1, key, t);
        r := GetIn(frozen[i], key, t);
        if r.Some? {
          return;
        }
      }
      FirstMatchNone(ts[|frozen| + 1..], key, t);
      return None;
    }
  }

  /** The pairs as versions with one id. */
  function Stamped(kvs: seq<(Key, Value)>, tid: nat): (es: seq<Entry>)
    ensures |es| == |kvs|
  {
    seq(|kvs|, i requires 0 <= i < |kvs| => Entry(kvs[i].0, kvs[i].1, tid))
  }

  /** The tables a flush works on: with nothing frozen, the active one is frozen first. */
  function FlushView(ts: seq<seq<Entry>>): (r: seq<seq<Entry>>)
    requires ts != []
    ensures |r| >= 2
  {
    if |ts| == 1 then [[]] + ts else ts
  }

  lemma {:induction false} BytesZero(es: seq<Entry>)
    ensures Bytes(es) == 0 <==> es == []
  {
  }

  method SizeOf(l: SkipList) returns (n: int)
    requires l.Valid()
    ensures n == Bytes(l.Listed())
  {
    n := l.sizeBytes;
  }

  method ReadOut(l: SkipList) returns (d: seq<Entry>)
    requires l.Valid()
    ensures d == l.Listed()
  {
    d := l.Flush();
  }

  lemma {:induction false} TotalSnoc(ts: seq<seq<Entry>>, t: seq<Entry>)
    ensures TotalBytes(ts + [t]) == TotalBytes(ts) + Bytes(t)
  {
    if ts == [] {
      assert ([t])[1..] == [];
    } else {
      TotalSnoc(ts[1..], t);
      assert (ts + [t])[1..] == ts[1..] + [t];
    }
  }

  /** All but the oldest list. */
  lemma ApartFront(ls: seq<SkipList>, r: set<object>)
    requires Apart(ls, r) && ls != []
    ensures var n := |ls| - 1;
      && Apart(ls[..n], r) && ls[n].Valid() && ContentsOf(ls[..n], r) + [ls[n].Listed()] == ContentsOf(ls, r)
      && TotalBytes(ContentsOf(ls, r)) == TotalBytes(ContentsOf(ls[..n], r)) + Bytes(ls[n].Listed())
  {
    hide SkipList.Valid, ContentsOf, TotalBytes, Bytes;
    var n := |ls| - 1;
    var front := ls[..n];
    forall i | 0 <= i < n
      ensures Owned(front[i], r)
    {
      assert Owned(ls[i], r);
    }
    forall i, j | 0 <= i < j < n
      ensures Disjoint(front[i], front[j], r)
    {
      assert Disjoint(ls[i], ls[j], r);
    }
    assert Owned(ls[n], r);
    assert ContentsOf(front, r) + [ls[n].Listed()] == ContentsOf(ls, r);
    TotalSnoc(ContentsOf(front, r), ls[n].Listed());
  }

  method GetIn(l: SkipList, key: Key, t: nat) returns (r: Option<Entry>)
    requires l.Valid()
    ensures r == Lookup(l.Listed(), key, t)
  {
    var n := l.Get(key, t);
    return if n == null then None else Some(Entry(n.key, n.value, n.tid));
  }

  /** The active list joins the frozen ones. */
  lemma Adopted(l: SkipList, ls: seq<SkipList>, cold: set<object>, all: set<object>)
    requires l.Valid() && Apart(ls, cold) && l !in cold && (forall n :: n in l.nodes ==> n !in cold)
    requires all == cold + {l} + (set n | n in l.nodes)
    ensures Apart([l] + ls, all) && ContentsOf([l] + ls, all) == [l.Listed()] + ContentsOf(ls, cold)
    ensures TotalBytes(ContentsOf([l] + ls, all)) == Bytes(l.Listed()) + TotalBytes(ContentsOf(ls, cold))
  {
    hide SkipList.Valid, ContentsOf, Bytes, Disjoint;
    ApartGrow(ls, cold, all);
    FrozenDisjoint(l, ls, cold, all);
    ApartCons(l, ls, all);
    var ts := ContentsOf(ls, cold);
    assert ([l.Listed()] + ts)[1..] == ts;
  }

  lemma FrozenDisjoint(l: SkipList, ls: seq<SkipList>, cold: set<object>, all: set<object>)
    requires l.Valid() && Apart(ls, cold) && l !in cold && (forall n :: n in l.nodes ==> n !in cold)
    requires all == cold + {l} + (set n | n in l.nodes)
    ensures Owned(l, all) && forall i :: 0 <= i < |ls| ==> Disjoint(l, ls[i], all)
  {
    hide SkipList.Valid;
    forall i | 0 <= i < |ls|
      ensures Disjoint(l, ls[i], all)
    {
      assert Owned(ls[i], cold);
    }
  }

  lemma FirstMatchStep(ts: seq<seq<Entry>>, i: nat, key: Key, t: nat)
    requires i < |ts|
    ensures FirstMatch(ts[i..], key, t) == (if Lookup(ts[i], key, t).Some? then Lookup(ts[i], key, t)
      else FirstMatch(ts[i + 1..], key, t))
  {
    assert ts[i..][1..] == ts[i + 1..];
  }

  lemma FirstMatchNone(ts: seq<seq<Entry>>, key: Key, t: nat)
    requires ts == []
    ensures FirstMatch(ts, key, t) == None
  {
  }

  lemma TotalCons(ts: seq<seq<Entry>>)
    requires ts != []
    ensures TotalBytes(ts) == Bytes(ts[0]) + TotalBytes(ts[1..])
  {
  }
}
