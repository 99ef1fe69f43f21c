/** How a table is cut into blocks: by size, but never between versions of one key. */
module Cutting {
  import opened Keys
  import opened Versions
  import opened Blocks

  /** Finished blocks and the one being filled. */
  datatype Cut = Cut(done: seq<seq<Entry>>, open: seq<Entry>)

  function Last(es: seq<Entry>): Entry
    requires es != []
  {
    es[|es| - 1]
  }

  /** Bytes of an encoded block. */
  function BlockSize(es: seq<Entry>): nat {
    DataSize(es) + 2 * |es| + 2
  }

  /** One more entry: it stays in the open block if that is empty, ends with the same key, or has room. */
  function CutStep(c: Cut, e: Entry, capacity: nat): Cut {
    if c.open == [] || e.key == Last(c.open).key || BlockSize(c.open) + |e.key| + |e.value| + 14 <= capacity
    then Cut(c.done, c.open + [e])
    else Cut(c.done + [c.open], [e])
  }

  function CutAll(es: seq<Entry>, capacity: nat): (c: Cut)
    ensures es != [] ==> c.open != []
  {
    if es == [] then Cut([], []) else CutStep(CutAll(es[..|es| - 1], capacity), Last(es), capacity)
  }

  /** The blocks once the open one is closed as well. */
  function Closed(c: Cut): seq<seq<Entry>> {
    if c.open == [] then c.done else c.done + [c.open]
  }

  function Flatten(bs: seq<seq<Entry>>): seq<Entry> {
    if bs == [] then [] else Flatten(bs[..|bs| - 1]) + bs[|bs| - 1]
  }

  predicate NoneEmpty(bs: seq<seq<Entry>>) {
    forall i :: 0 <= i < |bs| ==> bs[i] != []
  }

  lemma FlattenSnoc(bs: seq<seq<Entry>>, b: seq<Entry>)
    ensures Flatten(bs + [b]) == Flatten(bs) + b
  {
    assert (bs + [b])[..|bs|] == bs;
  }

  lemma {:induction false} FlattenCons(bs: seq<seq<Entry>>)
    requires bs != []
    ensures Flatten(bs) == bs[0] + Flatten(bs[1..])
  {
    var n := |bs| - 1;
    if n > 0 {
      FlattenCons(bs[..n]);
      assert bs[..n][1..] == bs[1..][..n - 1];
      assert bs[0] + (Flatten(bs[1..n]) + bs[n]) == bs[0] + Flatten(bs[1..n]) + bs[n];
    }
  }

  lemma {:induction false} FromFlatten(bs: seq<seq<Entry>>, x: Entry)
    requires x in Flatten(bs)
    ensures exists i :: 0 <= i < |bs| && x in bs[i]
  {
    var n := |bs| - 1;
    if x !in bs[n] {
      FromFlatten(bs[..n], x);
      var i :| 0 <= i < n && x in bs[..n][i];
      assert x in bs[i];
    }
  }

  /** Nothing is lost, doubled or reordered. */
  lemma {:induction false} CutKeepsAll(es: seq<Entry>, capacity: nat)
    ensures Flatten(Closed(CutAll(es, capacity))) == es
    ensures NoneEmpty(Closed(CutAll(es, capacity)))
  {
    if es != [] {
      var front, e := es[..|es| - 1], Last(es);
      assert front + [e] == es;
      CutKeepsAll(front, capacity);
      var c := CutAll(front, capacity);
      StepKeepsAll(c, e, capacity);
      assert CutAll(es, capacity) == CutStep(c, e, capacity);
    }
  }

  lemma StepKeepsAll(c: Cut, e: Entry, capacity: nat)
    requires NoneEmpty(Closed(c))
    ensures Flatten(Closed(CutStep(c, e, capacity))) == Flatten(Closed(c)) + [e]
    ensures NoneEmpty(Closed(CutStep(c, e, capacity)))
  {
    hide BlockSize, Flatten;
    FlattenSnoc(c.done, c.open);
    FlattenSnoc(c.done, c.open + [e]);
    FlattenSnoc(c.done + [c.open], [e]);
    if c.open == [] {
      assert c.open + [e] == [e];
    } else {
      assert Flatten(c.done) + (c.open + [e]) == Flatten(c.done) + c.open + [e];
    }
    assert forall i :: 0 <= i < |c.done| ==> c.done[i] == Closed(c)[i];
  }

  /** All keys of an earlier block lie before all keys of a later one. */
  ghost predicate KeysApart(bs: seq<seq<Entry>>) {
    forall i, j :: 0 <= i < j < |bs| ==> KeysBelow(bs[i], bs[j])
  }

  ghost predicate KeysBelow(a: seq<Entry>, b: seq<Entry>) {
    forall x, y :: x in a && y in b ==> Less(x.key, y.key)
  }

  /** The keys at and before the end of a sorted table. */
  lemma NotAfterLast(es: seq<Entry>, x: Entry)
    requires Sorted(es) && x in es
    ensures x.key == Last(es).key || Less(x.key, Last(es).key)
  {
    var i :| 0 <= i < |es| && es[i] == x;
    if i < |es| - 1 {
      assert Before(es[i], es[|es| - 1]);
    }
  }

  lemma SortedSuffix(a: seq<Entry>, b: seq<Entry>)
    requires Sorted(a + b)
    ensures Sorted(b) && Sorted(a)
  {
    forall i, j | 0 <= i < j < |b|
      ensures Before(b[i], b[j])
    {
      assert (a + b)[|a| + i] == b[i] && (a + b)[|a| + j] == b[j];
    }
    forall i, j | 0 <= i < j < |a|
      ensures Before(a[i], a[j])
    {
      assert (a + b)[i] == a[i] && (a + b)[j] == a[j];
    }
  }

  lemma SortedAcross(a: seq<Entry>, b: seq<Entry>, x: Entry, y: Entry)
    requires Sorted(a + b) && x in a && y in b
    ensures Before(x, y)
  {
    var i :| 0 <= i < |a| && a[i] == x;
    var j :| 0 <= j < |b| && b[j] == y;
    assert (a + b)[i] == x && (a + b)[|a| + j] == y;
  }

  /** The versions of one key are never spread over two blocks, and block ranges ascend. */
  lemma {:induction false} CutKeysApart(es: seq<Entry>, capacity: nat)
    requires Sorted(es)
    ensures KeysApart(Closed(CutAll(es, capacity)))
  {
    if es != [] {
      var front, e := es[..|es| - 1], Last(es);
      assert front + [e] == es;
      SortedSuffix(front, [e]);
      CutKeysApart(front, capacity);
      CutKeepsAll(front, capacity);
      if front != [] {
        var c := CutAll(front, capacity);
        FlattenSnoc(c.done, c.open);
        StepKeysApart(c, e, front, capacity);
      }
    }
  }

  lemma StepKeysApart(c: Cut, e: Entry, front: seq<Entry>, capacity: nat)
    requires c.open != [] && front == Flatten(c.done) + c.open && Sorted(front + [e]) && KeysApart(c.done + [c.open])
    ensures KeysApart(Closed(CutStep(c, e, capacity)))
  {
    var was, step := c.done + [c.open], CutStep(c, e, capacity);
    var bs := Closed(step);
    assert forall i, j :: 0 <= i < j < |was| ==> KeysBelow(was[i], was[j]);
    forall i, j | 0 <= i < j < |bs|
      ensures KeysBelow(bs[i], bs[j])
    {
      assert bs[i] == was[i];
      if j < |was| - 1 {
        assert bs[j] == was[j];
      } else if step.done == c.done {
        assert j == |was| - 1 && bs[j] == c.open + [e] && was[j] == c.open;
        KeysBelowGrow(bs[i], c.open, front, e);
      } else if j < |was| {
        assert bs[j] == was[j];
      } else {
        assert bs[j] == [e];
        MemberOfFlatten(c, i);
        NewBlockAbove(was[i], c.open, front, e);
      }
    }
  }

  lemma KeysBelowGrow(a: seq<Entry>, open: seq<Entry>, front: seq<Entry>, e: Entry)
    requires KeysBelow(a, open) && open != [] && Sorted(front + [e]) && (forall x :: x in open ==> x in front)
    ensures KeysBelow(a, open + [e])
  {
    SortedAcross(front, [e], open[0], e);
    forall x | x in a
      ensures Less(x.key, e.key)
    {
      if Less(open[0].key, e.key) {
        LessTransitive(x.key, open[0].key, e.key);
      }
    }
  }

  lemma MemberOfFlatten(c: Cut, i: nat)
    requires i <= |c.done|
    ensures forall x :: x in (c.done + [c.open])[i] ==> x in Flatten(c.done) + c.open
  {
    if i < |c.done| {
      InFlatten(c.done, i);
    }
  }

  lemma {:induction false} InFlatten(bs: seq<seq<Entry>>, i: nat)
    requires i < |bs|
    ensures forall x :: x in bs[i] ==> x in Flatten(bs)
  {
    if i < |bs| - 1 {
      InFlatten(bs[..|bs| - 1], i);
    }
  }

  lemma NewBlockAbove(a: seq<Entry>, open: seq<Entry>, front: seq<Entry>, e: Entry)
    requires
      && open != [] && Sorted(front + [e]) && (forall x :: x in a ==> x in front) && front != []
      && Last(front) == Last(open)
    requires e.key != Last(open).key
    ensures KeysBelow(a, [e])
  {
    SortedSuffix(front, [e]);
    SortedAcross(front, [e], Last(front), e);
    forall x | x in a
      ensures Less(x.key, e.key)
    {
      NotAfterLast(front, x);
      if x.key != Last(front).key {
        LessTransitive(x.key, Last(front).key, e.key);
      }
    }
  }

  // ------------------------------------------------------------ lookup in one block

  lemma {:induction false} LookupConcat(a: seq<Entry>, b: seq<Entry>, k: Key, t: nat)
    ensures Lookup(a + b, k, t) == (if Lookup(a, k, t).Some? then Lookup(a, k, t) else Lookup(b, k, t))
  {
    if a == [] {
      assert a + b == b;
    } else {
      LookupConcat(a[1..], b, k, t);
      assert (a + b)[1..] == a[1..] + b;
    }
  }

  lemma {:induction false} LookupAbsent(es: seq<Entry>, k: Key, t: nat)
    requires forall x :: x in es ==> x.key != k
    ensures Lookup(es, k, t) == None
  {
    if es != [] {
      LookupAbsent(es[1..], k, t);
    }
  }

  /** If only block i can hold k, looking there is enough. */
  lemma {:induction false} LookupInBlock(bs: seq<seq<Entry>>, i: nat, k: Key, t: nat)
    requires i < |bs| && forall j, x :: 0 <= j < |bs| && j != i && x in bs[j] ==> x.key != k
    ensures Lookup(Flatten(bs), k, t) == Lookup(bs[i], k, t)
  {
    var front, b := bs[..|bs| - 1], bs[|bs| - 1];
    LookupConcat(Flatten(front), b, k, t);
    if i == |bs| - 1 {
      LookupNowhere(front, k, t);
    } else {
      LookupInBlock(front, i, k, t);
      LookupAbsent(b, k, t);
    }
  }

  lemma {:induction false} LookupNowhere(bs: seq<seq<Entry>>, k: Key, t: nat)
    requires forall j, x :: 0 <= j < |bs| && x in bs[j] ==> x.key != k
    ensures Lookup(Flatten(bs), k, t) == None
  {
    if bs != [] {
      var front, b := bs[..|bs| - 1], bs[|bs| - 1];
      LookupConcat(Flatten(front), b, k, t);
      LookupNowhere(front, k, t);
      LookupAbsent(b, k, t);
    }
  }
}
