/** Iteration over blocks, table files and rows of files without an id filter, and the two-way merge. */
module Iterators {
  import opened Keys
  import opened Versions
  import opened Blocks
  import opened BlockSearch
  import opened Cutting
  import opened SstFile
  import S = Ssts

  type Pair = (Key, Value)

  function PairOf(e: Entry): Pair {
    (e.key, e.value)
  }

  /** es without its leading versions of k. */
  function DropKey(es: seq<Entry>, k: Key): (r: seq<Entry>)
    ensures |r| <= |es|
  {
    if es == [] || es[0].key != k then es else DropKey(es[1..], k)
  }

  lemma {:induction false} DropShape(es: seq<Entry>, k: Key)
    ensures var r := DropKey(es, k); r == es[|es| - |r|..] && (r != [] ==> r[0].key != k)
  {
    if es != [] && es[0].key == k {
      DropShape(es[1..], k);
    }
  }

  /** The first version of every run of equal keys. */
  function FirstPerKey(es: seq<Entry>): seq<Pair>
    decreases |es|
  {
    if es == [] then [] else [PairOf(es[0])] + FirstPerKey(DropKey(es[1..], es[0].key))
  }

  ghost predicate Ascending(ps: seq<Pair>) {
    forall i, j :: 0 <= i < j < |ps| ==> Less(ps[i].0, ps[j].0)
  }

  /** What is left after a key has been passed lies beyond it. */
  lemma DropBeyond(es: seq<Entry>)
    requires Sorted(es) && es != []
    ensures var r := DropKey(es[1..], es[0].key);
      Sorted(r) && (forall x :: x in r ==> Less(es[0].key, x.key)) && (forall x :: x in r ==> x in es)
  {
    var tl := es[1..];
    var r := DropKey(tl, es[0].key);
    var d := |es| - |r|;
    DropShape(tl, es[0].key);
    assert forall i :: 0 <= i < |r| ==> r[i] == es[d + i];
    forall i | 0 <= i < |r|
      ensures Less(es[0].key, r[i].key)
    {
      assert Before(es[0], es[d]) && es[d] == r[0];
      if i > 0 {
        assert Before(es[d], es[d + i]);
        if Less(r[0].key, r[i].key) {
          LessTransitive(es[0].key, r[0].key, r[i].key);
        }
      }
    }
  }

  /** From a sorted table: each key once, ascending, with its newest version's value. */
  lemma {:induction false} FirstPerKeyExact(es: seq<Entry>)
    requires Sorted(es)
    ensures Ascending(FirstPerKey(es))
    ensures forall p :: p in FirstPerKey(es) ==> exists x :: x in es && x.key == p.0
    ensures forall k, v :: (k, v) in FirstPerKey(es) <==> Lookup(es, k, 0).Some? && Lookup(es, k, 0).value.value == v
    decreases |es|
  {
    if es != [] {
      var r := DropKey(es[1..], es[0].key);
      DropBeyond(es);
      FirstPerKeyExact(r);
      var ps := FirstPerKey(r);
      assert FirstPerKey(es) == [PairOf(es[0])] + ps;
      forall i | 0 <= i < |ps|
        ensures Less(es[0].key, ps[i].0)
      {
        assert ps[i] in ps;
      }
      forall k
        ensures Lookup(es, k, 0) == (if k == es[0].key then Some(es[0]) else Lookup(r, k, 0))
      {
        if k != es[0].key {
          DropLookup(es[1..], es[0].key, k);
        }
      }
      LessIrreflexive(es[0].key);
      forall p | p in FirstPerKey(es)
        ensures exists x :: x in es && x.key == p.0
      {
        if p in ps {
          var x :| x in r && x.key == p.0;
          assert x in es;
        } else {
          assert es[0] in es && p == PairOf(es[0]);
        }
      }
      FirstKeyOnce(es, r);
    }
  }

  /** No other pair of the first key follows. */
  lemma FirstKeyOnce(es: seq<Entry>, r: seq<Entry>)
    requires
      && es != [] && (forall x :: x in r ==> Less(es[0].key, x.key))
      && (forall p :: p in FirstPerKey(r) ==> exists x :: x in r && x.key == p.0)
    ensures forall v :: (es[0].key, v) !in FirstPerKey(r)
  {
    LessIrreflexive(es[0].key);
  }

  lemma {:induction false} DropLookup(es: seq<Entry>, k: Key, q: Key)
    requires q != k
    ensures Lookup(es, q, 0) == Lookup(DropKey(es, k), q, 0)
  {
    if es != [] && es[0].key == k {
      DropLookup(es[1..], k, q);
    }
  }

  lemma {:induction false} DropConcat(a: seq<Entry>, b: seq<Entry>, k: Key)
    requires b != [] ==> b[0].key != k
    ensures DropKey(a + b, k) == DropKey(a, k) + b
  {
    if a == [] {
      assert a + b == b;
    } else if a[0].key == k {
      DropConcat(a[1..], b, k);
      assert (a + b)[1..] == a[1..] + b;
    }
  }

  lemma PairsAssoc(x: seq<Pair>, y: seq<Pair>, z: seq<Pair>)
    ensures x + (y + z) == x + y + z
  {
  }

  /** Tables without a common key can be iterated one after the other. */
  lemma {:induction false} FirstPerKeyConcat(a: seq<Entry>, b: seq<Entry>)
    requires forall x, y :: x in a && y in b ==> x.key != y.key
    ensures FirstPerKey(a + b) == FirstPerKey(a) + FirstPerKey(b)
    decreases |a|
  {
    if a == [] {
      assert a + b == b;
    } else {
      var tl := a[1..];
      assert (a + b)[1..] == tl + b && a[0] in a;
      assert b != [] ==> b[0] in b;
      DropConcat(tl, b, a[0].key);
      var r := DropKey(tl, a[0].key);
      DropShape(tl, a[0].key);
      assert forall x :: x in r ==> x in a;
      FirstPerKeyConcat(r, b);
      PairsAssoc([PairOf(a[0])], FirstPerKey(r), FirstPerKey(b));
    }
  }

  // ------------------------------------------------------------ one block

  class BlockIterator {
    const block: Block
    ghost const es: seq<Entry>
    var index: nat

    ghost predicate Valid()
      reads this, block
    {
      block.Lists(es) && index <= |es|
    }

    /** What is still to come. */
    ghost function Rest(): seq<Pair>
      requires index <= |es|
      reads this
    {
      FirstPerKey(es[index..])
    }

    /** Without an id filter nothing is skipped at the start. */
    constructor (block: Block, ghost es: seq<Entry>)
      requires block.Lists(es)
      ensures Valid() && Rest() == FirstPerKey(es) && this.block == block && this.es == es
    {
      this.block := block;
      this.es := es;
      index := 0;
      new;
      assert es[0..] == es;
    }

    method IsEnd() returns (end: bool)
      requires Valid()
      ensures end <==> Rest() == []
    {
      end := index == |block.offsets|;
    }

    /** Key and value at the current position. */
    method Current() returns (p: Pair)
      requires Valid() && Rest() != []
      ensures p == Rest()[0]
    {
      assert ReadsAs(block.data, block.offsets[index], es[index]);
      p := (KeyAt(block.data, block.offsets[index]), ValueAt(block.data, block.offsets[index]));
    }

    /** On to the next key. */
    method Next()
      requires Valid()
      modifies `index
      ensures Valid() && (if old(Rest()) == [] then Rest() == [] else Rest() == old(Rest())[1..])
    {
      hide ReadsAs, Sorted;
      if index < |block.offsets| {
        var key := block.ReadKey(index, es);
        index := index + 1;
        ghost var tl := es[index..];
        assert es[index - 1..][1..] == tl;
        while index < |block.offsets|
          invariant index <= |es| && DropKey(tl, key) == DropKey(es[index..], key)
        {
          var k := block.ReadKey(index, es);
          if k != key {
            break;
          }
          index := index + 1;
          assert es[index - 1..][1..] == es[index..];
        }
      }
    }
  }

  // ------------------------------------------------------------ one table file

  /** Block by block. */
  function RestBlocks(bs: seq<seq<Entry>>): seq<Pair> {
    if bs == [] then [] else FirstPerKey(bs[0]) + RestBlocks(bs[1..])
  }

  lemma RestNext(ts: seq<seq<Entry>>, i: nat)
    requires i <= |ts|
    ensures RestBlocks(ts[i..]) == (if i == |ts| then [] else FirstPerKey(ts[i]) + RestBlocks(ts[i + 1..]))
  {
    assert i < |ts| ==> ts[i..][1..] == ts[i + 1..];
  }

  /** Since no key spans two blocks, iterating block by block is iterating the whole table. */
  lemma {:induction false} BlocksInRow(bs: seq<seq<Entry>>)
    requires KeysApart(bs)
    ensures RestBlocks(bs) == FirstPerKey(Flatten(bs))
  {
    if bs != [] {
      var tl := bs[1..];
      assert forall i, j :: 0 <= i < j < |tl| ==>
        tl[i] == bs[i + 1] && tl[j] == bs[j + 1] && KeysBelow(bs[i + 1], bs[j + 1]);
      BlocksInRow(tl);
      forall x, y | x in bs[0] && y in Flatten(tl)
        ensures x.key != y.key
      {
        FromFlatten(tl, y);
        var i :| 0 <= i < |tl| && y in tl[i];
        assert KeysBelow(bs[0], bs[i + 1]);
        LessIrreflexive(x.key);
      }
      FirstPerKeyConcat(bs[0], Flatten(tl));
      FlattenCons(bs);
    }
  }

  /** The first pair of a non-empty table exists. */
  lemma FirstPerKeyNonEmpty(es: seq<Entry>)
    ensures FirstPerKey(es) == [] <==> es == []
  {
  }

  class SstIterator {
    const sst: Sst
    const hash: seq<byte> -> nat
    ghost const bs: seq<seq<Entry>>
    var blockIdx: nat
    var it: BlockIterator?

    ghost predicate Valid()
      reads this, it, if it == null then {} else {it.block}
    {
      && S.Stores(sst, bs, hash)
      && (it != null ==> blockIdx < |bs| && it.Valid() && it.es == bs[blockIdx] && it.Rest() != [])
    }

    /** What is still to come. */
    ghost function Rest(): seq<Pair>
      requires Valid()
      reads this, it, if it == null then {} else {it.block}
    {
      if it == null then [] else it.Rest() + RestBlocks(bs[blockIdx + 1..])
    }

    /** At the first entry: everything is still to come, each key once with its newest version. */
    constructor (sst: Sst, hash: seq<byte> -> nat, ghost bs: seq<seq<Entry>>)
      requires S.Stores(sst, bs, hash)
      ensures
        && Valid() && fresh(it) && fresh(it.block) && Rest() == FirstPerKey(Flatten(bs)) && this.sst == sst
        && this.bs == bs && this.hash == hash
    {
      hide S.Stores, KeysApart, KeysBelow, FirstPerKey, Flatten, Block.Lists;
      this.sst, this.hash, this.bs := sst, hash, bs;
      blockIdx := 0;
      it := null;
      new;
      StoresApart(sst, bs, hash);
      it := OpenBlock(sst, hash, bs, 0);
      FirstPerKeyNonEmpty(bs[0]);
      BlocksInRow(bs);
    }

    method Current() returns (p: Pair)
      requires Valid() && Rest() != []
      ensures p == Rest()[0]
    {
      p := it.Current();
    }

    /** On to the next key, in this block or the next. */
    method Next()
      requires Valid()
      modifies this, it
      ensures Valid() && (if old(Rest()) == [] then Rest() == [] else Rest() == old(Rest())[1..])
      ensures it == old(it) || it == null || (fresh(it) && fresh(it.block))
    {
      hide S.Stores, FirstPerKey;
      if it == null {
        return;
      }
      StoresApart(sst, bs, hash);
      ghost var r := it.Rest();
      it.Next();
      var end := it.IsEnd();
      if end {
        blockIdx := blockIdx + 1;
        if blockIdx < |sst.metas| {
          it := OpenBlock(sst, hash, bs, blockIdx);
          FirstPerKeyNonEmpty(bs[blockIdx]);
          assert bs[blockIdx..][1..] == bs[blockIdx + 1..];
        } else {
          it := null;
        }
      }
    }
  }

  lemma StoresApart(sst: Sst, bs: seq<seq<Entry>>, hash: seq<byte> -> nat)
    requires S.Stores(sst, bs, hash)
    ensures KeysApart(bs) && bs != [] && NoneEmpty(bs) && |sst.metas| == |bs|
  {
  }

  /** Decodes block i and stands at its first entry. */
  method OpenBlock(sst: Sst, hash: seq<byte> -> nat, ghost bs: seq<seq<Entry>>, i: nat) returns (it: BlockIterator)
    requires S.Stores(sst, bs, hash) && i < |bs|
    ensures fresh(it) && fresh(it.block) && it.Valid() && it.es == bs[i] && it.Rest() == FirstPerKey(bs[i])
  {
    hide KeysBelow;
    S.BlockReads(sst, bs, hash, i);
    hide ReadsBack, EncodeAll, OffsetsOf;
    var res := ReadBlock(sst, i, hash);
    var b := new Block(0);
    b.data, b.offsets := res.value.0, res.value.1;
    it := new BlockIterator(b, bs[i]);
  }

  // ------------------------------------------------------------ a row of files

  class ConcatIterator {
    const ssts: seq<Sst>
    const hash: seq<byte> -> nat
    ghost const parts: seq<seq<seq<Entry>>>
    var cur: SstIterator?
    var curIdx: nat

    ghost predicate Files() {
      |parts| == |ssts| && forall i :: 0 <= i < |ssts| ==> S.Stores(ssts[i], parts[i], hash)
    }

    ghost function Repr(): set<object>
      reads this, cur, if cur == null then {} else {cur.it}
    {
      {this} + (if cur == null then {} else {cur} + (if cur.it == null then {} else {cur.it, cur.it.block}))
    }

    ghost predicate Valid()
      reads this, cur, if cur == null then {} else {cur.it}, Repr()
    {
      && Files() && (cur != null ==> curIdx < |ssts| && cur.Valid() && cur.bs == parts[curIdx] && cur.Rest() != [])
    }

    /** What is still to come. */
    ghost function Rest(): seq<Pair>
      requires Valid()
      reads this, cur, if cur == null then {} else {cur.it}, Repr()
    {
      if cur == null then [] else cur.Rest() + RestBlocks(Tables(parts)[curIdx + 1..])
    }

    /** At the first entry of the first file. */
    constructor (ssts: seq<Sst>, hash: seq<byte> -> nat, ghost parts: seq<seq<seq<Entry>>>)
      requires |parts| == |ssts| && forall i :: 0 <= i < |ssts| ==> S.Stores(ssts[i], parts[i], hash)
      ensures Valid() && fresh(Repr()) && Rest() == RestBlocks(Tables(parts))
    {
      hide S.Stores, FirstPerKey, Flatten;
      this.ssts, this.hash, this.parts := ssts, hash, parts;
      cur, curIdx := null, 0;
      new;
      if ssts != [] {
        cur := new SstIterator(ssts[0], hash, parts[0]);
        TableNonEmpty(ssts[0], parts[0], hash);
      }
    }

    method IsEnd() returns (end: bool)
      requires Valid()
      ensures Valid() && (end <==> Rest() == [])
    {
      hide S.Stores, SstIterator.Valid, SstIterator.Rest, RestBlocks, Flatten;
      end := cur == null;
    }

    method Current() returns (p: Pair)
      requires Valid() && Rest() != []
      ensures Valid() && Rest() != [] && p == Rest()[0]
    {
      hide S.Stores, SstIterator.Valid, SstIterator.Rest, RestBlocks, Flatten;
      p := cur.Current();
    }

    /** On to the next key, in this file or the next. */
    method Next()
      requires Valid()
      modifies Repr()
      ensures Valid() && fresh(Repr() - old(Repr()))
      ensures if old(Rest()) == [] then Rest() == [] else Rest() == old(Rest())[1..]
    {
      hide S.Stores, FirstPerKey, Flatten, RestBlocks, Block.Lists, Tables, BlockIterator.Rest;
      if cur == null {
        return;
      }
      RestNext(Tables(parts), curIdx + 1);
      cur.Next();
      if cur.it == null {
        curIdx := curIdx + 1;
        if curIdx < |ssts| {
          cur := new SstIterator(ssts[curIdx], hash, parts[curIdx]);
          TableNonEmpty(ssts[curIdx], parts[curIdx], hash);
        } else {
          cur := null;
        }
      }
    }
  }

  ghost function Tables(parts: seq<seq<seq<Entry>>>): (ts: seq<seq<Entry>>)
    ensures |ts| == |parts| && forall i :: 0 <= i < |parts| ==> ts[i] == Flatten(parts[i])
  {
    seq(|parts|, i requires 0 <= i < |parts| => Flatten(parts[i]))
  }

  lemma TableNonEmpty(sst: Sst, bs: seq<seq<Entry>>, hash: seq<byte> -> nat)
    requires S.Stores(sst, bs, hash)
    ensures FirstPerKey(Flatten(bs)) != []
  {
    hide KeysBelow;
    InFlatten(bs, 0);
    assert bs[0][0] in bs[0];
    FirstPerKeyNonEmpty(Flatten(bs));
  }

  // ------------------------------------------------------------ two-way merge

  /** The sorted union; where both have a key, the first stream's pair. */
  function Merge(a: seq<Pair>, b: seq<Pair>): seq<Pair> {
    if a == [] then b
    else if b == [] then a
    else if a[0].0 == b[0].0 then Merge(a, b[1..])
    else if Less(a[0].0, b[0].0) then [a[0]] + Merge(a[1..], b)
    else [b[0]] + Merge(a, b[1..])
  }

  lemma AscendingTail(ps: seq<Pair>)
    requires Ascending(ps) && ps != []
    ensures Ascending(ps[1..]) && (forall p :: p in ps[1..] ==> Less(ps[0].0, p.0))
  {
    forall i | 0 <= i < |ps[1..]|
      ensures Less(ps[0].0, ps[1..][i].0)
    {
      assert ps[1..][i] == ps[i + 1];
    }
  }

  /** Every pair of a merge comes from one of its streams. */
  lemma {:induction false} MergeFrom(a: seq<Pair>, b: seq<Pair>, p: Pair)
    requires p in Merge(a, b)
    ensures p in a || p in b
    decreases |a| + |b|
  {
    if a != [] && b != [] {
      if a[0].0 == b[0].0 {
        MergeFrom(a, b[1..], p);
      } else if Less(a[0].0, b[0].0) {
        if p != a[0] {
          MergeFrom(a[1..], b, p);
        }
      } else if p != b[0] {
        MergeFrom(a, b[1..], p);
      }
    }
  }

  lemma {:induction false} MergeAscending(a: seq<Pair>, b: seq<Pair>)
    requires Ascending(a) && Ascending(b)
    ensures Ascending(Merge(a, b))
    decreases |a| + |b|
  {
    if a != [] && b != [] {
      AscendingTail(a);
      AscendingTail(b);
      if a[0].0 == b[0].0 {
        MergeAscending(a, b[1..]);
      } else if Less(a[0].0, b[0].0) {
        MergeAscending(a[1..], b);
        AboveHead(b, a[0]);
        MergeHead(a[1..], b, a[0]);
      } else {
        LessTotal(a[0].0, b[0].0);
        MergeAscending(a, b[1..]);
        AboveHead(a, b[0]);
        MergeHead(a, b[1..], b[0]);
      }
    }
  }

  lemma AboveHead(ps: seq<Pair>, h: Pair)
    requires Ascending(ps) && ps != [] && Less(h.0, ps[0].0)
    ensures forall p :: p in ps ==> Less(h.0, p.0)
  {
    forall i | 0 < i < |ps|
      ensures Less(h.0, ps[i].0)
    {
      LessTransitive(h.0, ps[0].0, ps[i].0);
    }
  }

  lemma MergeHead(a: seq<Pair>, b: seq<Pair>, h: Pair)
    requires
      && Ascending(Merge(a, b)) && (forall p :: p in a ==> Less(h.0, p.0)) && (forall p :: p in b ==> Less(h.0, p.0))
    ensures Ascending([h] + Merge(a, b))
  {
    var m := Merge(a, b);
    forall i | 0 <= i < |m|
      ensures Less(h.0, m[i].0)
    {
      MergeFrom(a, b, m[i]);
    }
  }

  /** Exactly the pairs of the first stream, and those of the second whose key the first lacks. */
  lemma {:induction false} MergeExact(a: seq<Pair>, b: seq<Pair>, p: Pair)
    requires Ascending(a) && Ascending(b)
    ensures p in Merge(a, b) <==> p in a || (p in b && forall q :: q in a ==> q.0 != p.0)
    decreases |a| + |b|
  {
    if a != [] && b != [] {
      AscendingTail(a);
      AscendingTail(b);
      assert a[0] in a && b[0] in b;
      LessIrreflexive(p.0);
      LessTotal(a[0].0, b[0].0);
      assert a == [a[0]] + a[1..] && b == [b[0]] + b[1..];
      if a[0].0 == b[0].0 {
        MergeExact(a, b[1..], p);
      } else if Less(a[0].0, b[0].0) {
        MergeExact(a[1..], b, p);
        AboveHead(b, a[0]);
      } else {
        MergeExact(a, b[1..], p);
        AboveHead(a, b[0]);
      }
    }
  }

  /** Two streams, each given by what it has still to yield. */
  class TwoMerge {
    var a: seq<Pair>
    var b: seq<Pair>
    var chooseA: bool

    /** The heads differ, and the smaller one is chosen. */
    ghost predicate Valid()
      reads this
    {
      && (a != [] && b != [] ==> a[0].0 != b[0].0)
      && (chooseA <==> a != [] && (b == [] || Less(a[0].0, b[0].0)))
      && Ascending(a) && Ascending(b)
    }

    ghost function Rest(): seq<Pair>
      reads this
    {
      Merge(a, b)
    }

    constructor (a: seq<Pair>, b: seq<Pair>)
      requires Ascending(a) && Ascending(b)
      ensures Valid() && Rest() == Merge(a, b)
    {
      this.a, this.b := a, b;
      chooseA := false;
      new;
      SkipB();
      chooseA := ChooseA();
    }

    /** Passes over a pair of the second stream whose key the first has as well. */
    method SkipB()
      requires Ascending(a) && Ascending(b)
      modifies `b
      ensures Ascending(b) && Merge(a, b) == old(Merge(a, b)) && (a != [] && b != [] ==> a[0].0 != b[0].0)
    {
      if a != [] && b != [] && a[0].0 == b[0].0 {
        AscendingTail(b);
        ghost var k := b[0].0;
        b := b[1..];
        LessIrreflexive(k);
        assert b != [] ==> b[0] in b;
      }
    }

    method ChooseA() returns (c: bool)
      ensures c <==> a != [] && (b == [] || Less(a[0].0, b[0].0))
    {
      if a == [] {
        return false;
      }
      if b == [] {
        return true;
      }
      return Less(a[0].0, b[0].0);
    }

    method IsEnd() returns (end: bool)
      requires Valid()
      ensures end <==> Rest() == []
    {
      end := a == [] && b == [];
    }

    method Current() returns (p: Pair)
      requires Valid() && Rest() != []
      ensures p == Rest()[0]
    {
      if chooseA {
        p := a[0];
      } else {
        p := b[0];
      }
    }

    method Next()
      requires Valid() && Rest() != []
      modifies this
      ensures Valid() && Rest() == old(Rest())[1..]
    {
      if chooseA {
        AscendingTail(a);
        a := a[1..];
      } else {
        AscendingTail(b);
        b := b[1..];
      }
      SkipB();
      chooseA := ChooseA();
    }
  }
}
