/** The heap that merges the versions of several tables into one ascending scan. */
module HeapScan {
  import opened Keys
  import opened Versions
  import opened SkipLists
  import opened MemTables
  import opened Layers

  /** A version and the table it comes from; smaller indices are newer tables. */
  datatype Item = Item(key: Key, value: Value, tid: nat, idx: nat, level: nat)

  /** The comparison the heap is ordered by. */
  predicate Greater(a: Item, b: Item) {
    if a.key != b.key then Less(b.key, a.key)
    else a.tid < b.tid || a.level < b.level || a.idx > b.idx
  }

  /** One level; within a key, a newer id never comes from an older table; no version twice per table. */
  ghost predicate WellOrdered(m: multiset<Item>) {
    forall a, b :: a in m && b in m ==> Compatible(a, b)
  }

  ghost predicate Compatible(a: Item, b: Item) {
    && a.level == b.level
    && (a.key == b.key && a.tid > b.tid ==> a.idx <= b.idx)
    && (a.key == b.key && a.tid == b.tid && a.idx == b.idx ==> a == b)
  }

  /** On such items the comparison is a strict total order. */
  lemma GreaterTotal(a: Item, b: Item)
    requires Compatible(a, b) && Compatible(b, a)
    ensures a == b || (Greater(a, b) <==> !Greater(b, a))
    ensures a == b ==> !Greater(a, b)
  {
    LessTotal(a.key, b.key);
    if Less(a.key, b.key) {
      LessAsymmetric(a.key, b.key);
    } else if Less(b.key, a.key) {
      LessAsymmetric(b.key, a.key);
    }
  }

  lemma GreaterTransitive(a: Item, b: Item, c: Item)
    requires
      && Compatible(a, b) && Compatible(b, c) && Compatible(a, c) && Compatible(c, a) && Compatible(b, a)
      && Compatible(c, b)
    requires Greater(a, b) && Greater(b, c)
    ensures Greater(a, c)
  {
    if a.key != b.key && b.key != c.key {
      LessTransitive(c.key, b.key, a.key);
      LessIrreflexive(a.key);
    }
  }

  /** x comes out of the heap first. */
  ghost predicate IsTop(m: multiset<Item>, x: Item) {
    x in m && forall y :: y in m ==> !Greater(x, y)
  }

  lemma {:induction false} TopExists(m: multiset<Item>)
    requires WellOrdered(m) && m != multiset{}
    ensures exists x :: IsTop(m, x)
    decreases |m|
  {
    var a :| a in m;
    var rest := m - multiset{a};
    if rest == multiset{} {
      assert m == multiset{a};
      GreaterTotal(a, a);
      assert IsTop(m, a);
    } else {
      TopExists(rest);
      var x :| IsTop(rest, x);
      GreaterTotal(a, x);
      if Greater(x, a) {
        forall y | y in m
          ensures !Greater(a, y)
        {
          GreaterTotal(a, y);
          if y in rest && Greater(a, y) {
            GreaterTransitive(x, a, y);
          }
        }
        assert IsTop(m, a);
      } else {
        forall y | y in m
          ensures !Greater(x, y)
        {
          if y !in rest {
            assert y == a;
          }
        }
        assert IsTop(m, x);
      }
    }
  }

  /** e is the newest version of its key: the greatest id, from the newest table that has it. */
  ghost predicate Newest(m: multiset<Item>, e: Item) {
    e in m && forall y :: y in m && y.key == e.key ==> y.tid < e.tid || (y.tid == e.tid && e.idx <= y.idx)
  }

  /** A top has the smallest key and is the newest version of it. */
  lemma TopIsNewest(m: multiset<Item>, x: Item)
    requires WellOrdered(m) && IsTop(m, x)
    ensures Newest(m, x) && forall y :: y in m ==> y.key == x.key || Less(x.key, y.key)
  {
    forall y | y in m
      ensures y.key == x.key || Less(x.key, y.key)
      ensures y.key == x.key ==> y.tid < x.tid || (y.tid == x.tid && x.idx <= y.idx)
    {
      assert Compatible(x, y) && Compatible(y, x) && !Greater(x, y);
      LessTotal(x.key, y.key);
    }
  }

  /** Key k is to be yielded with value v: its newest version is not a deletion. */
  ghost predicate Live(m: multiset<Item>, k: Key, v: Value) {
    v != [] && exists e :: Newest(m, e) && e.key == k && e.value == v
  }

  ghost predicate AllVisible(m: multiset<Item>, t: nat) {
    forall a :: a in m ==> Visible(a.tid, t)
  }

  /** rest is m without the smallest keys, each key wholly there or wholly gone. */
  ghost predicate Suffix(m: multiset<Item>, rest: multiset<Item>) {
    && rest <= m
    && (forall a, b :: a in rest && b in m && b.key == a.key ==> rest[b] == m[b])
    && (forall a, b :: a in rest && b in m && b !in rest ==> Less(b.key, a.key))
  }

  ghost predicate SmallestKey(m: multiset<Item>, k: Key) {
    forall a :: a in m ==> a.key == k || Less(k, a.key)
  }

  lemma SuffixNewest(m: multiset<Item>, rest: multiset<Item>, e: Item)
    requires Suffix(m, rest)
    ensures Newest(rest, e) <==> Newest(m, e) && e in rest
  {
    if Newest(rest, e) {
      forall y | y in m && y.key == e.key
        ensures y.tid < e.tid || (y.tid == e.tid && e.idx <= y.idx)
      {
        assert rest[y] == m[y];
      }
    }
  }

  lemma SuffixTransitive(m: multiset<Item>, n: multiset<Item>, r: multiset<Item>)
    requires Suffix(m, n) && Suffix(n, r)
    ensures Suffix(m, r)
  {
    forall a, b | a in r && b in m && b.key == a.key
      ensures r[b] == m[b]
    {
      assert a in n;
      assert n[b] == m[b];
    }
    forall a, b | a in r && b in m && b !in r
      ensures Less(b.key, a.key)
    {
      assert a in n;
      if b in n {
        assert Less(b.key, a.key);
      }
    }
  }

  /** Items of key k removed, where k is the smallest key. */
  lemma DropSuffix(m: multiset<Item>, rest: multiset<Item>, k: Key)
    requires
      && SmallestKey(m, k) && rest <= m && (forall a :: a in rest ==> a.key != k)
      && (forall a: Item :: a.key != k ==> rest[a] == m[a])
    ensures Suffix(m, rest)
  {
    forall a, b | a in rest && b in m && b !in rest
      ensures Less(b.key, a.key)
    {
      assert b.key == k && a in m;
    }
  }

  lemma SubOrdered(m: multiset<Item>, rest: multiset<Item>)
    requires WellOrdered(m) && rest <= m
    ensures WellOrdered(rest)
  {
  }

  /** The keys that are gone were deletions. */
  ghost predicate OnlyDeletionsGone(m: multiset<Item>, rest: multiset<Item>) {
    forall e :: Newest(m, e) && e !in rest ==> e.value == []
  }

  /** Only items the reader may not see are gone. */
  ghost predicate Skipped(m: multiset<Item>, rest: multiset<Item>, t: nat) {
    rest <= m && forall a: Item :: Visible(a.tid, t) ==> rest[a] == m[a]
  }

  lemma SkippedFacts(m: multiset<Item>, rest: multiset<Item>, t: nat)
    ensures m == rest ==> Skipped(m, rest, t)
    ensures Skipped(m, rest, t) ==> |rest| <= |m| && (AllVisible(m, t) || |rest| == |m| ==> rest == m)
  {
    if Skipped(m, rest, t) {
      assert m == rest + (m - rest);
      assert AllVisible(m, t) ==> forall a :: a in m ==> rest[a] == m[a];
    }
  }

  lemma SkippedNext(m: multiset<Item>, rest: multiset<Item>, x: Item, t: nat)
    requires Skipped(m, rest, t) && !Visible(x.tid, t)
    ensures Skipped(m, rest - multiset{x}, t)
  {
  }

  class HeapIterator {
    var items: multiset<Item>
    const maxId: nat

    ghost predicate Valid()
      reads this
    {
      WellOrdered(items)
    }

    /** Empty, or at a visible version that is not a deletion. */
    ghost predicate Settled()
      reads this
    {
      Valid() && (items == multiset{} || exists x :: IsTop(items, x) && Visible(x.tid, maxId) && x.value != [])
    }

    method Top() returns (x: Item)
      requires Valid() && items != multiset{}
      ensures IsTop(items, x)
    {
      TopExists(items);
      x :| x in items && forall y :: y in items ==> !Greater(x, y);
    }

    method Pop()
      requires Valid() && items != multiset{}
      modifies this
      ensures exists x :: old(IsTop(items, x)) && items == old(items) - multiset{x}
      ensures Valid() && |items| == |old(items)| - 1
    {
      var x := Top();
      items := items - multiset{x};
    }

    method TopValueLegal() returns (ok: bool)
      requires Valid()
      ensures ok <==> items == multiset{} || exists x :: IsTop(items, x) && Visible(x.tid, maxId) && x.value != []
    {
      if items == multiset{} {
        return true;
      }
      var x := Top();
      TopUnique(items, x);
      if maxId == 0 {
        return x.value != [];
      }
      return x.tid <= maxId && x.value != [];
    }

    /** Pops invisible versions; with only visible ones it does nothing. */
    method SkipById()
      requires Valid()
      modifies this
      ensures Valid() && Skipped(old(items), items, maxId)
      ensures
        && |items| <= |old(items)| && (AllVisible(old(items), maxId) || |items| == |old(items)| ==> items == old(items))
      ensures items != multiset{} ==> exists x :: IsTop(items, x) && Visible(x.tid, maxId)
    {
      hide Skipped, WellOrdered, AllVisible;
      SkippedFacts(items, items, maxId);
      if maxId == 0 {
        if items != multiset{} {
          TopExists(items);
        }
        return;
      }
      while items != multiset{}
        invariant Valid() && Skipped(old(items), items, maxId)
        decreases |items|
      {
        var x := Top();
        SkippedFacts(old(items), items, maxId);
        if x.tid <= maxId {
          return;
        }
        TopUnique(items, x);
        SkippedNext(old(items), items, x, maxId);
        Pop();
      }
      SkippedFacts(old(items), items, maxId);
    }

    /** Pops every version of key, the smallest key in the heap. */
    method DropKey(key: Key)
      requires Valid() && SmallestKey(items, key)
      modifies this
      ensures Valid() && items <= old(items) && Suffix(old(items), items) && forall a :: a in items ==> a.key != key
      ensures forall a: Item :: a.key != key ==> items[a] == old(items)[a]
    {
      hide WellOrdered, Suffix;
      while items != multiset{}
        invariant Valid() && items <= old(items) && SmallestKey(items, key)
        invariant forall a: Item :: a.key != key ==> items[a] == old(items)[a]
        decreases |items|
      {
        var x := Top();
        if x.key != key {
          NoneLeft(items, x, key);
          break;
        }
        SubOrdered(items, items - multiset{x});
        items := items - multiset{x};
      }
      DropSuffix(old(items), items, key);
    }

    /** One round of skipping: invisible versions first, then deleted keys. */
    method SkipAndDrop(ghost m: multiset<Item>)
      requires Valid() && items != multiset{} && !exists x :: IsTop(items, x) && Visible(x.tid, maxId) && x.value != []
      requires AllVisible(m, maxId) ==> Suffix(m, items) && OnlyDeletionsGone(m, items)
      modifies this
      ensures Valid() && |items| < |old(items)|
      ensures AllVisible(m, maxId) ==> Suffix(m, items) && OnlyDeletionsGone(m, items)
    {
      hide WellOrdered, Suffix, OnlyDeletionsGone;
      SuffixVisible(m, items, maxId);
      SkipById();
      while items != multiset{}
        invariant Valid() && |items| <= |old(items)|
        invariant |items| == |old(items)| ==> items == multiset{} || exists x :: IsTop(items, x) && x.value == []
        invariant AllVisible(m, maxId) ==> Suffix(m, items) && OnlyDeletionsGone(m, items)
        decreases |items|
      {
        var x := Top();
        TopUnique(items, x);
        if x.value != [] {
          break;
        }
        TopIsNewest(items, x);
        ghost var before := items;
        DropKey(x.key);
        Fewer(before, items, x);
        if AllVisible(m, maxId) {
          DropDeleted(m, before, items, x);
        }
      }
    }

    /** Skips invisible versions and deleted keys until a live key is on top. */
    method Settle()
      requires Valid()
      modifies this
      ensures Settled() && |items| <= |old(items)|
      ensures AllVisible(old(items), maxId) ==> Suffix(old(items), items) && OnlyDeletionsGone(old(items), items)
    {
      hide WellOrdered, Suffix;
      var legal := TopValueLegal();
      SuffixSelf(items);
      while !legal
        invariant Valid() && |items| <= |old(items)|
        invariant legal
          <==> items == multiset{} || exists x :: IsTop(items, x) && Visible(x.tid, maxId) && x.value != []
        invariant AllVisible(old(items), maxId) ==> Suffix(old(items), items) && OnlyDeletionsGone(old(items), items)
        decreases |items|
      {
        SkipAndDrop(old(items));
        legal := TopValueLegal();
      }
    }

    /** Pushes the items and settles on the first live key. */
    constructor (vec: seq<Item>, maxId: nat)
      requires WellOrdered(multiset(vec))
      ensures Settled() && this.maxId == maxId
      ensures AllVisible(multiset(vec), maxId) ==>
        Suffix(multiset(vec), items) && OnlyDeletionsGone(multiset(vec), items)
    {
      this.maxId := maxId;
      items := multiset(vec);
      new;
      Settle();
    }

    /** Moves to the next live key. */
    method Next()
      requires Settled()
      modifies this
      ensures Settled() && (old(items) == multiset{} ==> items == multiset{})
      ensures old(items) != multiset{} ==> |items| < |old(items)|
      ensures old(items) != multiset{} && AllVisible(old(items), maxId) ==> Advanced(old(items), items)
    {
      hide WellOrdered, Suffix, OnlyDeletionsGone, Advanced;
      if items == multiset{} {
        return;
      }
      var x := Top();
      TopUnique(items, x);
      TopIsNewest(items, x);
      ghost var m := items;
      DropKey(x.key);
      Fewer(m, items, x);
      ghost var n := items;
      Settle();
      SuffixVisible(m, n, maxId);
      if AllVisible(m, maxId) {
        NextGone(m, n, items, x);
      }
    }

    /** Runs to the end: the keys ascend, and a pair comes out exactly when its key is live with that value. */
    method Scan() returns (out: seq<(Key, Value)>)
      requires Settled() && AllVisible(items, maxId)
      modifies this
      ensures forall i, j :: 0 <= i < j < |out| ==> Less(out[i].0, out[j].0)
      ensures forall k, v :: (k, v) in out <==> old(Live(items, k, v))
    {
      hide WellOrdered, Suffix, Newest, Advanced, Yielded, IsTop, Live;
      ghost var m := items;
      out := [];
      SuffixSelf(m);
      NoneYielded(m);
      while items != multiset{}
        invariant Settled() && Suffix(m, items) && AllVisible(items, maxId)
        invariant forall i, j :: 0 <= i < j < |out| ==> Less(out[i].0, out[j].0)
        invariant forall i, a :: 0 <= i < |out| && a in items ==> Less(out[i].0, a.key)
        invariant forall k, v :: (k, v) in out <==> Yielded(m, items, k, v)
        decreases |items|
      {
        var x := Top();
        ghost var n := items;
        Next();
        YieldStep(m, n, items, x, maxId);
        out := out + [(x.key, x.value)];
      }
      AllYielded(m);
    }
  }

  /** From m to rest only the top key and deleted keys were left behind. */
  ghost predicate Advanced(m: multiset<Item>, rest: multiset<Item>) {
    && Suffix(m, rest)
    && (forall e :: Newest(m, e) && e !in rest ==> e.value == [] || IsTop(m, e))
    && (forall x, a :: IsTop(m, x) && a in rest ==> Less(x.key, a.key))
  }

  /** (k, v) is live in m and its key has already left the heap. */
  ghost predicate Yielded(m: multiset<Item>, rest: multiset<Item>, k: Key, v: Value) {
    v != [] && exists e :: Newest(m, e) && e.key == k && e.value == v && e !in rest
  }

  lemma TopUnique(m: multiset<Item>, x: Item)
    requires WellOrdered(m) && IsTop(m, x)
    ensures forall y :: IsTop(m, y) ==> y == x
  {
    forall y | IsTop(m, y)
      ensures y == x
    {
      assert Compatible(x, y) && Compatible(y, x);
      GreaterTotal(x, y);
    }
  }

  lemma NoneLeft(m: multiset<Item>, x: Item, k: Key)
    requires WellOrdered(m) && IsTop(m, x) && SmallestKey(m, k) && x.key != k
    ensures forall a :: a in m ==> a.key != k
  {
    TopIsNewest(m, x);
    LessIrreflexive(k);
    forall a | a in m
      ensures a.key != k
    {
      assert Less(k, x.key);
      if a.key == k {
        LessAsymmetric(k, x.key);
      }
    }
  }

  lemma SuffixSelf(m: multiset<Item>)
    ensures Suffix(m, m) && OnlyDeletionsGone(m, m)
  {
  }

  lemma SuffixVisible(m: multiset<Item>, rest: multiset<Item>, t: nat)
    requires AllVisible(m, t) ==> Suffix(m, rest)
    ensures AllVisible(m, t) ==> AllVisible(rest, t)
  {
  }

  lemma Fewer(m: multiset<Item>, rest: multiset<Item>, x: Item)
    requires rest <= m && x in m && x !in rest
    ensures |rest| < |m|
  {
    assert m == rest + (m - rest);
    assert x in m - rest;
  }

  /** Dropping a key whose newest version is a deletion. */
  lemma DropDeleted(m: multiset<Item>, n: multiset<Item>, rest: multiset<Item>, x: Item)
    requires Suffix(m, n) && OnlyDeletionsGone(m, n) && WellOrdered(n) && IsTop(n, x) && x.value == []
    requires Suffix(n, rest) && (forall a: Item :: a.key != x.key ==> rest[a] == n[a])
    ensures Suffix(m, rest) && OnlyDeletionsGone(m, rest)
  {
    SuffixTransitive(m, n, rest);
    TopIsNewest(n, x);
    forall e | Newest(m, e) && e !in rest
      ensures e.value == []
    {
      if e in n {
        SuffixNewest(m, n, e);
        assert e.key == x.key;
        assert Compatible(e, x) && Compatible(x, e);
      }
    }
  }

  lemma NextGone(m: multiset<Item>, n: multiset<Item>, rest: multiset<Item>, x: Item)
    requires WellOrdered(m) && IsTop(m, x) && Suffix(m, n) && Suffix(n, rest) && OnlyDeletionsGone(n, rest)
    requires (forall a: Item :: a.key != x.key ==> n[a] == m[a]) && (forall a :: a in n ==> a.key != x.key)
    ensures Advanced(m, rest)
  {
    SuffixTransitive(m, n, rest);
    TopIsNewest(m, x);
    TopUnique(m, x);
    forall e | Newest(m, e) && e !in rest
      ensures e.value == [] || e == x
    {
      if e in n {
        SuffixNewest(m, n, e);
      } else {
        assert Compatible(e, x) && Compatible(x, e);
      }
    }
    forall a | a in rest
      ensures Less(x.key, a.key)
    {
      assert a in n && a in m;
    }
  }

  /** Yielding the top adds exactly its pair. */
  lemma YieldStep(m: multiset<Item>, n: multiset<Item>, rest: multiset<Item>, x: Item, t: nat)
    requires
      && Suffix(m, n) && WellOrdered(n) && IsTop(n, x)
      && (exists y :: IsTop(n, y) && Visible(y.tid, t) && y.value != [])
    requires Advanced(n, rest)
    ensures Suffix(m, rest) && x.value != [] && (forall a :: a in n ==> a.key == x.key || Less(x.key, a.key))
    ensures forall a :: a in rest ==> a in n && Less(x.key, a.key)
    ensures forall k, v :: Yielded(m, rest, k, v) <==> Yielded(m, n, k, v) || (k == x.key && v == x.value)
  {
    SuffixTransitive(m, n, rest);
    TopUnique(n, x);
    TopIsNewest(n, x);
    SuffixNewest(m, n, x);
    LessIrreflexive(x.key);
    assert x !in rest;
    forall k, v
      ensures Yielded(m, rest, k, v) <==> Yielded(m, n, k, v) || (k == x.key && v == x.value)
    {
      if Yielded(m, rest, k, v) {
        var e :| Newest(m, e) && e.key == k && e.value == v && e !in rest;
        if e in n {
          SuffixNewest(m, n, e);
        }
      }
      if Yielded(m, n, k, v) {
        var e :| Newest(m, e) && e.key == k && e.value == v && e !in n;
        assert e !in rest;
      }
    }
  }

  lemma NoneYielded(m: multiset<Item>)
    ensures forall k, v :: !Yielded(m, m, k, v)
  {
  }

  lemma AllYielded(m: multiset<Item>)
    ensures forall k, v :: Yielded(m, multiset{}, k, v) <==> Live(m, k, v)
  {
  }

  // ------------------------------------------------------------ from tables

  /** The visible versions of one table as items. */
  function TableItems(es: seq<Entry>, idx: nat, t: nat): seq<Item> {
    if es == [] then []
    else
      var e := es[|es| - 1];
      TableItems(es[..|es| - 1], idx, t) + (if Visible(e.tid, t) then [Item(e.key, e.value, e.tid, idx, 0)] else [])
  }

  function AllItems(ts: seq<seq<Entry>>, t: nat): seq<Item> {
    if ts == [] then [] else AllItems(ts[..|ts| - 1], t) + TableItems(ts[|ts| - 1], |ts| - 1, t)
  }

  ghost predicate From(ts: seq<seq<Entry>>, t: nat, x: Item) {
    x.level == 0 && x.idx < |ts| && Visible(x.tid, t) && Entry(x.key, x.value, x.tid) in ts[x.idx]
  }

  lemma {:induction false} TableItemsHave(es: seq<Entry>, idx: nat, t: nat, x: Item)
    ensures x in TableItems(es, idx, t)
      <==> x.level == 0 && x.idx == idx && Visible(x.tid, t) && Entry(x.key, x.value, x.tid) in es
  {
    if es != [] {
      TableItemsHave(es[..|es| - 1], idx, t, x);
      assert es == es[..|es| - 1] + [es[|es| - 1]];
    }
  }

  lemma {:induction false} AllItemsHave(ts: seq<seq<Entry>>, t: nat, x: Item)
    ensures x in AllItems(ts, t) <==> From(ts, t, x)
  {
    if ts != [] {
      AllItemsHave(ts[..|ts| - 1], t, x);
      TableItemsHave(ts[|ts| - 1], |ts| - 1, t, x);
    }
  }

  lemma SameVersion(es: seq<Entry>, a: Entry, b: Entry)
    requires Sorted(es) && a in es && b in es && a.key == b.key && a.tid == b.tid
    ensures a == b
  {
    var i :| 0 <= i < |es| && es[i] == a;
    var j :| 0 <= j < |es| && es[j] == b;
    if i < j {
      BeforeTotal(es[i], es[j]);
    } else if j < i {
      BeforeTotal(es[j], es[i]);
    }
  }

  lemma ItemsOrdered(ts: seq<seq<Entry>>, t: nat)
    requires AllSorted(ts) && TablesOrdered(ts)
    ensures WellOrdered(multiset(AllItems(ts, t))) && AllVisible(multiset(AllItems(ts, t)), t)
  {
    var m := multiset(AllItems(ts, t));
    forall a | a in m
      ensures Visible(a.tid, t)
    {
      AllItemsHave(ts, t, a);
    }
    forall a, b | a in m && b in m
      ensures Compatible(a, b)
    {
      AllItemsHave(ts, t, a);
      AllItemsHave(ts, t, b);
      var x, y := Entry(a.key, a.value, a.tid), Entry(b.key, b.value, b.tid);
      if b.idx < a.idx {
        assert TableAbove(ts[b.idx], ts[a.idx]);
      } else if a.idx == b.idx && a.key == b.key && a.tid == b.tid {
        SameVersion(ts[a.idx], x, y);
      }
    }
  }

  /** The newest item of a key is the version a point lookup finds. */
  lemma FoundIsNewest(ts: seq<seq<Entry>>, k: Key, t: nat, n: nat)
    requires AllSorted(ts) && TablesOrdered(ts) && n <= |ts| && (forall j :: 0 <= j < n ==> Lookup(ts[j], k, t).None?)
    ensures var r := FirstMatch(ts[n..], k, t);
      if r.Some? then exists idx: nat :: Newest(multiset(AllItems(ts, t)), Item(k, r.value.value, r.value.tid, idx, 0))
      else forall x :: x in AllItems(ts, t) ==> x.key != k
    decreases |ts| - n
  {
    if n == |ts| {
      forall x | x in AllItems(ts, t)
        ensures x.key != k
      {
        AllItemsHave(ts, t, x);
        LookupPosition(ts[x.idx], k, t);
      }
    } else {
      assert ts[n..][1..] == ts[n + 1..];
      if Lookup(ts[n], k, t).None? {
        FoundIsNewest(ts, k, t, n + 1);
      } else {
        FoundHere(ts, k, t, n);
      }
    }
  }

  lemma FoundHere(ts: seq<seq<Entry>>, k: Key, t: nat, n: nat)
    requires AllSorted(ts) && TablesOrdered(ts) && n < |ts| && (forall j :: 0 <= j < n ==> Lookup(ts[j], k, t).None?)
    requires Lookup(ts[n], k, t).Some?
    ensures var e := Lookup(ts[n], k, t).value; Newest(multiset(AllItems(ts, t)), Item(k, e.value, e.tid, n, 0))
  {
    var m, e := multiset(AllItems(ts, t)), Lookup(ts[n], k, t).value;
    var x := Item(k, e.value, e.tid, n, 0);
    LookupPosition(ts[n], k, t);
    var p :| FoundAt(ts[n], k, t, e, p);
    assert e in ts[n] && e == Entry(x.key, x.value, x.tid);
    AllItemsHave(ts, t, x);
    LookupIsNewest(ts[n], k, t);
    forall y | y in m && y.key == k
      ensures y.tid < x.tid || (y.tid == x.tid && x.idx <= y.idx)
    {
      AllItemsHave(ts, t, y);
      var f := Entry(y.key, y.value, y.tid);
      LookupPosition(ts[y.idx], k, t);
      if y.idx == n {
        var q :| 0 <= q < |ts[n]| && ts[n][q] == f;
        StoreAt(ts[n], q);
      } else if y.idx > n {
        assert TableAbove(ts[n], ts[y.idx]);
      }
    }
  }

  /** A pair is live among the items exactly when a point lookup shows that value. */
  lemma LiveIsShown(ts: seq<seq<Entry>>, k: Key, t: nat, v: Value)
    requires AllSorted(ts) && TablesOrdered(ts)
    ensures Live(multiset(AllItems(ts, t)), k, v) <==> Shown(FirstMatch(ts, k, t)) == Some(v)
  {
    var m, r := multiset(AllItems(ts, t)), FirstMatch(ts, k, t);
    assert ts[0..] == ts;
    FoundIsNewest(ts, k, t, 0);
    ItemsOrdered(ts, t);
    if r.Some? {
      var idx: nat :| Newest(m, Item(k, r.value.value, r.value.tid, idx, 0));
      var x := Item(k, r.value.value, r.value.tid, idx, 0);
      forall e | Newest(m, e) && e.key == k
        ensures e == x
      {
        assert Compatible(e, x) && Compatible(x, e);
      }
    }
  }

  lemma SuffixLive(m: multiset<Item>, n: multiset<Item>, k: Key, v: Value)
    requires Suffix(m, n) && OnlyDeletionsGone(m, n)
    ensures Live(n, k, v) <==> Live(m, k, v)
  {
    if Live(n, k, v) {
      var e :| Newest(n, e) && e.key == k && e.value == v;
      SuffixNewest(m, n, e);
    }
    if Live(m, k, v) {
      var e :| Newest(m, e) && e.key == k && e.value == v;
      SuffixNewest(m, n, e);
    }
  }

  lemma ShownUnique(store: Store, k: Key, t: nat, r: Option<Value>, v: Value)
    requires Answers(store, k, t, r)
    ensures Answers(store, k, t, Some(v)) <==> r == Some(v)
  {
    if Answers(store, k, t, Some(v)) {
      AnswerUnique(store, k, t, r, Some(v));
    }
  }

  lemma AllItemsNext(ts: seq<seq<Entry>>, i: nat, t: nat)
    requires i < |ts|
    ensures AllItems(ts[..i + 1], t) == AllItems(ts[..i], t) + TableItems(ts[i], i, t)
    ensures i == 0 ==> AllItems(ts[..i], t) == []
  {
    assert ts[..i + 1][..i] == ts[..i];
  }

  /** Appends the visible versions of one table. */
  method Collect(vec: seq<Item>, es: seq<Entry>, idx: nat, t: nat) returns (r: seq<Item>)
    ensures r == vec + TableItems(es, idx, t)
  {
    r := vec;
    for i := 0 to |es|
      invariant r == vec + TableItems(es[..i], idx, t)
    {
      assert es[..i + 1][..i] == es[..i];
      if t != 0 && es[i].tid > t {
        continue;
      }
      r := r + [Item(es[i].key, es[i].value, es[i].tid, idx, 0)];
    }
    assert es[..|es|] == es;
  }

  /** The versions of a table of the memtable, the active one first. */
  method ReadTable(mt: MemTable, i: nat) returns (es: seq<Entry>)
    requires mt.Valid() && i <= |mt.frozen|
    ensures i < |mt.Tables()| && es == mt.Tables()[i]
  {
    hide SkipList.Valid, ContentsOf, Disjoint, TotalBytes;
    if i == 0 {
      es := ReadOut(mt.current);
    } else {
      assert Owned(mt.frozen[i - 1], mt.cold) && mt.Tables()[i] == mt.frozen[i - 1].Listed();
      es := ReadOut(mt.frozen[i - 1]);
    }
  }

  /** The visible versions of all tables, with the number of their table. */
  method BeginItems(mt: MemTable, t: nat) returns (vec: seq<Item>)
    requires mt.Valid()
    ensures vec == AllItems(mt.Tables(), t)
  {
    hide MemTable.Valid, MemTable.Tables, TableItems, AllItems;
    ghost var ts := mt.Tables();
    var es := ReadTable(mt, 0);
    vec := Collect([], es, 0, t);
    AllItemsNext(ts, 0, t);
    for i := 0 to |mt.frozen|
      invariant vec == AllItems(ts[..i + 1], t)
    {
      es := ReadTable(mt, i + 1);
      AllItemsNext(ts, i + 1, t);
      vec := Collect(vec, es, i + 1, t);
    }
    assert ts[..|mt.frozen| + 1] == ts;
  }

  /** The heap iterator over a memtable. */
  method Begin(mt: MemTable, t: nat) returns (h: HeapIterator)
    requires mt.Valid() && WellOrdered(multiset(AllItems(mt.Tables(), t)))
    ensures fresh(h) && h.Settled() && h.maxId == t
    ensures var m := multiset(AllItems(mt.Tables(), t));
      AllVisible(m, t) ==> Suffix(m, h.items) && OnlyDeletionsGone(m, h.items)
  {
    hide MemTable.Valid, MemTable.Tables, AllItems, WellOrdered, Suffix, OnlyDeletionsGone, AllVisible;
    var vec := BeginItems(mt, t);
    h := new HeapIterator(vec, t);
  }

  /** The scan of a memtable: what its heap iterator yields, from beginning to end, are the keys a
      point lookup at t finds, ascending, each once, with the value the lookup shows. */
  method ScanMemTable(mt: MemTable, t: nat, ghost store: Store) returns (out: seq<(Key, Value)>)
    requires mt.Valid() && Good(mt.Tables(), store)
    ensures forall i, j :: 0 <= i < j < |out| ==> InByteOrder(out[i].0, out[j].0)
    ensures forall k, v :: (k, v) in out <==> Answers(store, k, t, Some(v))
  {
    hide MemTable.Valid, WellOrdered, AllSorted, TablesOrdered, Live, FirstMatch, Suffix, OnlyDeletionsGone;
    hide Less, InByteOrder;
    ghost var ts := mt.Tables();
    ItemsOrdered(ts, t);
    var h := Begin(mt, t);
    ghost var m := multiset(AllItems(ts, t));
    SuffixVisible(m, h.items, t);
    ghost var n := h.items;
    out := h.Scan();
    forall i, j | 0 <= i < j < |out|
      ensures InByteOrder(out[i].0, out[j].0)
    {
      LessMeaning(out[i].0, out[j].0);
    }
    forall k, v
      ensures (k, v) in out <==> Answers(store, k, t, Some(v))
    {
      SuffixLive(m, n, k, v);
      LiveIsShown(ts, k, t, v);
      GoodAnswers(ts, store, k, t);
      ShownUnique(store, k, t, Shown(FirstMatch(ts, k, t)), v);
    }
  }
}
