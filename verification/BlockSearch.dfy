/** Building a block entry by entry, and the binary searches inside it. */
module BlockSearch {
  import opened Keys
  import opened Versions
  import opened Blocks

  /** r is the position of the newest version of k visible at t, or nothing if there is none. */
  ghost predicate RightIndex(es: seq<Entry>, k: Key, t: nat, r: Option<nat>) {
    match r
    case None => forall j :: 0 <= j < |es| ==> !(es[j].key == k && Visible(es[j].tid, t))
    case Some(i) => i < |es| && FoundAt(es, k, t, es[i], i)
  }

  /** Ids of k survive being read back through 16 bits. */
  ghost predicate NarrowIds(es: seq<Entry>, k: Key) {
    forall i :: 0 <= i < |es| && es[i].key == k ==> es[i].tid < U16
  }

  /** Reading ids of k through 16 bits does not change which of them t may see. */
  ghost predicate Legible(es: seq<Entry>, k: Key, t: nat) {
    t == 0 || forall i :: 0 <= i < |es| && es[i].key == k ==> (es[i].tid % U16 <= t <==> es[i].tid <= t)
  }

  /** All ids of k are at most t. */
  ghost predicate AllSeen(es: seq<Entry>, k: Key, t: nat) {
    forall i :: 0 <= i < |es| && es[i].key == k ==> es[i].tid <= t
  }

  /** Narrow ids are legible at every t, and any ids are at a t none of them exceeds; from 65535
      on, at no other. */
  lemma LegibleWhen(es: seq<Entry>, k: Key, t: nat)
    ensures NarrowIds(es, k) || AllSeen(es, k, t) ==> Legible(es, k, t)
    ensures t >= U16 - 1 ==> (Legible(es, k, t) <==> AllSeen(es, k, t))
  {
  }

  /** The first position of k, if it occurs at all. */
  ghost predicate FirstOf(es: seq<Entry>, k: Key, r: Option<nat>) {
    match r
    case None => forall j :: 0 <= j < |es| ==> es[j].key != k
    case Some(i) => i < |es| && es[i].key == k && forall j :: 0 <= j < i ==> es[j].key != k
  }

  /** r is the first version of k that t may see, or a version too new for t with none visible before
      it, or nothing because none is visible: the answer errs at most by being too new. */
  ghost predicate NoneSkipped(es: seq<Entry>, k: Key, t: nat, r: Option<nat>) {
    match r
    case None => forall j :: 0 <= j < |es| ==> !(es[j].key == k && Visible(es[j].tid, t))
    case Some(i) =>
      && i < |es| && es[i].key == k
      && forall j :: 0 <= j < i ==> !(es[j].key == k && Visible(es[j].tid, t))
  }

  /** Then the answer is right if and only if it is not too new. */
  lemma RightUnlessNew(es: seq<Entry>, k: Key, t: nat, r: Option<nat>)
    requires NoneSkipped(es, k, t, r)
    ensures RightIndex(es, k, t, r) <==> r.None? || Visible(es[r.value].tid, t)
  {
  }

  function ValueOf(e: Option<Entry>): Option<Value> {
    if e.Some? then Some(e.value.value) else None
  }

  /** The version of k at i, with value v, is too new for t, but its narrowed id is not. */
  ghost predicate NewAt(es: seq<Entry>, k: Key, t: nat, v: Value, i: nat) {
    i < |es| && es[i].key == k && es[i].value == v && t != 0 && es[i].tid % U16 <= t < es[i].tid
  }

  ghost predicate TooNew(es: seq<Entry>, k: Key, t: nat, v: Value) {
    exists i :: NewAt(es, k, t, v, i)
  }

  /** r is what a linear scan finds, or the value of a version too new for t. */
  ghost predicate Finds(es: seq<Entry>, k: Key, t: nat, r: Option<Value>) {
    r == ValueOf(Lookup(es, k, t)) || (r.Some? && TooNew(es, k, t, r.value))
  }

  lemma FindsLegible(es: seq<Entry>, k: Key, t: nat, r: Option<Value>)
    ensures Finds(es, k, t, r) && Legible(es, k, t) ==> r == ValueOf(Lookup(es, k, t))
  {
  }

  /** The right position is what a linear scan finds. */
  lemma RightIndexLookup(es: seq<Entry>, k: Key, t: nat, r: Option<nat>)
    requires RightIndex(es, k, t, r)
    ensures Lookup(es, k, t) == (if r.Some? then Some(es[r.value]) else None)
  {
    LookupPosition(es, k, t);
    var l := Lookup(es, k, t);
    if l.Some? {
      var j :| FoundAt(es, k, t, l.value, j);
      assert r.Some?;
      assert j == r.value;
    }
  }

  /** Once the key changes going left, it does not come back. */
  lemma RunStart(es: seq<Entry>, i: nat)
    requires Sorted(es) && i < |es| && (i > 0 ==> es[i - 1].key != es[i].key)
    ensures forall j :: 0 <= j < i ==> es[j].key != es[i].key
  {
    forall j | 0 <= j < i
      ensures es[j].key != es[i].key
    {
      assert Before(es[i - 1], es[i]);
      LessIrreflexive(es[i].key);
      if j < i - 1 {
        assert Before(es[j], es[i - 1]);
        if Less(es[j].key, es[i - 1].key) {
          LessTransitive(es[j].key, es[i - 1].key, es[i].key);
        }
      }
    }
  }

  /** Nor going right. */
  lemma RunEnd(es: seq<Entry>, i: nat, n: nat)
    requires Sorted(es) && i < n <= |es| && (n < |es| ==> es[n].key != es[i].key)
    ensures forall j :: n <= j < |es| ==> es[j].key != es[i].key
  {
    forall j | n <= j < |es|
      ensures es[j].key != es[i].key
    {
      assert Before(es[i], es[n]);
      LessIrreflexive(es[i].key);
      if j > n {
        assert Before(es[n], es[j]);
        if Less(es[n].key, es[j].key) {
          LessTransitive(es[i].key, es[n].key, es[j].key);
        }
      }
    }
  }

  /** Earlier versions of a key have larger ids. */
  lemma IdsDescend(es: seq<Entry>, i: nat, j: nat)
    requires Sorted(es) && i < j < |es| && es[i].key == es[j].key
    ensures es[i].tid > es[j].tid
  {
    assert Before(es[i], es[j]);
    LessIrreflexive(es[i].key);
  }

  class Block {
    var data: seq<byte>
    var offsets: seq<nat>
    const capacity: nat

    constructor (capacity: nat)
      ensures data == [] && offsets == [] && this.capacity == capacity
    {
      this.capacity := capacity;
      data, offsets := [], [];
    }

    /** The bytes the block takes when encoded. */
    function CurSize(): (n: nat)
      reads this
      ensures n == |EncodeBlock(data, offsets)|
    {
      |data| + |offsets| * 2 + 2
    }

    /** Appends an entry unless the block is full; a forced or first entry always goes in. */
    method AddEntry(key: Key, value: Value, tid: nat, force: bool) returns (ok: bool)
      modifies this
      ensures ok <==> force || old(offsets) == [] || old(CurSize()) + |key| + |value| + 14 <= capacity
      ensures ok ==>
        data == old(data) + EncodeEntry(Entry(key, value, tid)) && offsets == old(offsets) + [|old(data)| % U16]
      ensures !ok ==> data == old(data) && offsets == old(offsets)
    {
      if !force && CurSize() + |key| + |value| + 14 > capacity && offsets != [] {
        return false;
      }
      var oldSize := |data|;
      data := data + EncodeEntry(Entry(key, value, tid));
      offsets := offsets + [oldSize % U16];
      return true;
    }

    /** The block reads back as es, which is in table order. */
    ghost predicate Lists(es: seq<Entry>)
      reads this
    {
      ReadsBack(data, offsets, es) && Sorted(es)
    }

    method IsSameKey(idx: nat, key: Key, ghost es: seq<Entry>) returns (same: bool)
      requires Lists(es)
      ensures same <==> idx < |es| && es[idx].key == key
    {
      if idx >= |offsets| {
        return false;
      }
      assert ReadsAs(data, offsets[idx], es[idx]);
      return KeyAt(data, offsets[idx]) == key;
    }

    method ReadId(i: nat, ghost es: seq<Entry>) returns (id: nat)
      requires Lists(es) && i < |offsets|
      ensures id == es[i].tid % U16
    {
      assert ReadsAs(data, offsets[i], es[i]);
      id := IdAt(data, offsets[i]);
    }

    /** From some version of a key to the newest one visible at t. */
    method AdjustIndex(idx: nat, t: nat, ghost es: seq<Entry>) returns (r: Option<nat>)
      requires Lists(es) && idx < |es|
      ensures Legible(es, es[idx].key, t) ==> RightIndex(es, es[idx].key, t, r)
      ensures t != 0 && es[idx].tid % U16 <= t < es[idx].tid ==> !RightIndex(es, es[idx].key, t, r)
      ensures NoneSkipped(es, es[idx].key, t, r) && (r.Some? && t != 0 ==> es[r.value].tid % U16 <= t)
      ensures t == 0 || t >= U16 - 1 ==> FirstOf(es, es[idx].key, r)
      ensures r.Some? ==> r.value < |es| && es[r.value].key == es[idx].key
    {
      hide Sorted, FirstOf, RightIndex, NoneSkipped, ReadsAs;
      var target := ReadKey(idx, es);
      if t != 0 {
        var cur := ReadId(idx, es);
        if cur <= t {
          r := WalkLeft(idx, t, target, es);
        } else {
          r := WalkRight(idx, t, target, es);
        }
      } else {
        var prev: nat := idx;
        while prev > 0
          invariant prev <= idx && es[prev].key == target
        {
          var same := IsSameKey(prev - 1, target, es);
          if !same {
            break;
          }
          prev := prev - 1;
        }
        r := Some(prev);
        FirstVisible(es, prev, t);
      }
    }

    /** The version at idx is visible: go left as long as versions stay visible. */
    method WalkLeft(idx: nat, t: nat, target: Key, ghost es: seq<Entry>) returns (r: Option<nat>)
      requires Lists(es) && idx < |es| && es[idx].key == target && t != 0 && es[idx].tid % U16 <= t
      ensures Legible(es, target, t) ==> RightIndex(es, target, t, r)
      ensures t < es[idx].tid ==> !RightIndex(es, target, t, r)
      ensures NoneSkipped(es, target, t, r) && (r.Some? ==> r.value < |es| && es[r.value].tid % U16 <= t)
      ensures t >= U16 - 1 ==> FirstOf(es, target, r)
      ensures r.Some? ==> r.value < |es| && es[r.value].key == target
    {
      hide Sorted, FirstOf, RightIndex, NoneSkipped, ReadsAs;
      var prev: nat := idx;
      while prev > 0
        invariant prev <= idx && es[prev].key == target && es[prev].tid % U16 <= t
      {
        var same := IsSameKey(prev - 1, target, es);
        if !same {
          break;
        }
        prev := prev - 1;
        var id := ReadId(prev, es);
        if id > t {
          StopsLeft(es, prev, t);
          if t < es[idx].tid {
            NarrowHidden(es, idx, t, prev + 1);
          }
          return Some(prev + 1);
        }
      }
      FirstVisible(es, prev, t);
      if t < es[idx].tid {
        NarrowHidden(es, idx, t, prev);
      }
      return Some(prev);
    }

    /** The version at idx is not visible: go right to the first visible one of the same key. */
    method WalkRight(idx: nat, t: nat, target: Key, ghost es: seq<Entry>) returns (r: Option<nat>)
      requires Lists(es) && idx < |es| && es[idx].key == target && t != 0 && es[idx].tid % U16 > t
      ensures NoneSkipped(es, target, t, r) && (r.Some? ==> r.value < |es| && es[r.value].tid % U16 <= t)
      ensures Legible(es, target, t) ==> RightIndex(es, target, t, r)
      ensures r.Some? ==> r.value < |es| && es[r.value].key == target
    {
      hide Sorted, RightIndex, ReadsAs;
      var next: nat := idx + 1;
      while next < |offsets|
        invariant idx < next <= |es| && forall j :: idx <= j < next ==> es[j].key == target && es[j].tid % U16 > t
      {
        var same := IsSameKey(next, target, es);
        if !same {
          break;
        }
        var id := ReadId(next, es);
        if id <= t {
          StopsRight(es, idx, next, t);
          return Some(next);
        }
        next := next + 1;
      }
      NoneRight(es, idx, next, t);
      return None;
    }

    /** The newest version of key visible at t, whenever its ids are legible at t.  From t = 65535
        on that is exact: the answer is right if and only if no id of key exceeds t. */
    method GetIndexBinary(key: Key, t: nat, ghost es: seq<Entry>) returns (r: Option<nat>)
      requires Lists(es)
      ensures Legible(es, key, t) ==> RightIndex(es, key, t, r)
      ensures NoneSkipped(es, key, t, r) && (r.Some? && t != 0 ==> es[r.value].tid % U16 <= t)
      ensures RightIndex(es, key, t, r) <==> r.None? || Visible(es[r.value].tid, t)
      ensures t >= U16 - 1 ==> (RightIndex(es, key, t, r) <==> AllSeen(es, key, t))
      ensures r.Some? ==> r.value < |es| && es[r.value].key == key
    {
      hide Sorted, RightIndex, NoneSkipped, FirstOf, Legible, AllSeen, ReadsAs;
      var left, right := 0, |offsets| - 1;
      while left <= right
        invariant 0 <= left <= right + 1 <= |es|
        invariant left > 0 ==> Less(es[left - 1].key, key)
        invariant right + 1 < |es| ==> Less(key, es[right + 1].key)
        decreases right - left
      {
        var mid := left + (right - left) / 2;
        var midKey := ReadKey(mid, es);
        if midKey == key {
          r := AdjustIndex(mid, t, es);
          RightUnlessNew(es, key, t, r);
          if t >= U16 - 1 {
            WideIds(es, key, t, r);
          }
          return;
        } else if Less(midKey, key) {
          left := mid + 1;
        } else {
          LessTotal(midKey, key);
          right := mid - 1;
        }
      }
      KeyAbsent(es, key, left, t);
      RightUnlessNew(es, key, t, None);
      if t != 0 {
        WideIds(es, key, t, None);
      }
      return None;
    }

    method ReadKey(i: nat, ghost es: seq<Entry>) returns (k: Key)
      requires Lists(es) && i < |offsets|
      ensures k == es[i].key
    {
      assert ReadsAs(data, offsets[i], es[i]);
      k := KeyAt(data, offsets[i]);
    }

    /** The value found by binary search: the one a linear scan finds, or that of a version too new
        for t whose narrowed id is not, which cannot be when the ids are legible at t. */
    method GetValueBinary(key: Key, t: nat, ghost es: seq<Entry>) returns (r: Option<Value>)
      requires Lists(es)
      ensures Finds(es, key, t, r)
      ensures Legible(es, key, t) ==> r == ValueOf(Lookup(es, key, t))
    {
      hide Sorted, RightIndex, NoneSkipped, Legible;
      var i := GetIndexBinary(key, t, es);
      if i.None? || Visible(es[i.value].tid, t) {
        RightIndexLookup(es, key, t, i);
      }
      if i.None? {
        return None;
      }
      assert ReadsAs(data, offsets[i.value], es[i.value]);
      r := Some(ValueAt(data, offsets[i.value]));
      assert Visible(es[i.value].tid, t) || NewAt(es, key, t, es[i.value].value, i.value);
      FindsLegible(es, key, t, r);
    }

    /** The half-open range of entries whose key has direction 0. */
    method MatchRange(dir: Key -> int, ghost es: seq<Entry>) returns (r: Option<(nat, nat)>)
      requires Lists(es)
      ensures r.None? <==> es == []
      ensures r.Some? ==> r.value.0 <= r.value.1 <= |es|
      ensures r.Some? && Monotone(es, dir) ==>
        forall i :: 0 <= i < |es| ==> (dir(es[i].key) == 0 <==> r.value.0 <= i < r.value.1)
    {
      hide Sorted, ReadsAs, Monotone;
      if offsets == [] {
        return None;
      }
      var left, right := 0, |offsets| - 1;
      while left <= right
        invariant 0 <= left <= right + 1 <= |es|
        invariant left > 0 ==> dir(es[left - 1].key) > 0
        invariant right + 1 < |es| ==> dir(es[right + 1].key) <= 0
        decreases right - left
      {
        var mid := left + (right - left) / 2;
        var midKey := ReadKey(mid, es);
        if dir(midKey) <= 0 {
          right := mid - 1;
        } else {
          left := mid + 1;
        }
      }
      var first := left;
      right := |offsets| - 1;
      while left <= right
        invariant first <= left <= right + 1 <= |es|
        invariant left > first ==> dir(es[left - 1].key) >= 0
        invariant right + 1 < |es| ==> dir(es[right + 1].key) < 0
        decreases right - left
      {
        var mid := left + (right - left) / 2;
        var midKey := ReadKey(mid, es);
        if dir(midKey) < 0 {
          right := mid - 1;
        } else {
          left := mid + 1;
        }
      }
      RangeExact(es, dir, first, left);
      return Some((first, left));
    }
  }

  /** The first version of a key, seen at an id that shows it, is the answer. */
  lemma FirstVisible(es: seq<Entry>, i: nat, t: nat)
    requires Sorted(es) && i < |es| && (i > 0 ==> es[i - 1].key != es[i].key)
    ensures FirstOf(es, es[i].key, Some(i)) && NoneSkipped(es, es[i].key, t, Some(i))
    ensures Visible(es[i].tid, t) ==> RightIndex(es, es[i].key, t, Some(i))
    ensures Legible(es, es[i].key, t) && (t == 0 || es[i].tid % U16 <= t) ==> RightIndex(es, es[i].key, t, Some(i))
  {
    RunStart(es, i);
  }

  /** Going left, version i is the first one that is too new. */
  lemma StopsLeft(es: seq<Entry>, i: nat, t: nat)
    requires
      && Sorted(es) && i + 1 < |es| && es[i].key == es[i + 1].key && es[i].tid % U16 > t && es[i + 1].tid % U16 <= t
      && t != 0
    ensures Legible(es, es[i].key, t) ==> RightIndex(es, es[i].key, t, Some(i + 1))
    ensures NoneSkipped(es, es[i].key, t, Some(i + 1))
    ensures t < U16 - 1
  {
    forall j | 0 <= j < i && es[j].key == es[i].key
      ensures es[j].tid > t
    {
      IdsDescend(es, j, i);
    }
  }

  lemma StopsRight(es: seq<Entry>, idx: nat, n: nat, t: nat)
    requires Sorted(es) && idx < n < |es| && es[n].key == es[idx].key && es[n].tid % U16 <= t && t != 0
    requires forall j :: idx <= j < n ==> es[j].key == es[idx].key && es[j].tid % U16 > t
    ensures Legible(es, es[idx].key, t) ==> RightIndex(es, es[idx].key, t, Some(n))
    ensures NoneSkipped(es, es[idx].key, t, Some(n))
  {
    forall j | 0 <= j < idx && es[j].key == es[idx].key
      ensures es[j].tid > t
    {
      IdsDescend(es, j, idx);
    }
  }

  lemma NoneRight(es: seq<Entry>, idx: nat, n: nat, t: nat)
    requires Sorted(es) && idx < n <= |es| && (n < |es| ==> es[n].key != es[idx].key) && t != 0
    requires forall j :: idx <= j < n ==> es[j].key == es[idx].key && es[j].tid % U16 > t
    ensures RightIndex(es, es[idx].key, t, None)
  {
    RunEnd(es, idx, n);
    forall j | 0 <= j < idx && es[j].key == es[idx].key
      ensures es[j].tid > t
    {
      IdsDescend(es, j, idx);
    }
  }

  /** The first version of key is the answer exactly when t sees all of them. */
  lemma WideIds(es: seq<Entry>, key: Key, t: nat, r: Option<nat>)
    requires Sorted(es) && FirstOf(es, key, r) && t != 0
    ensures RightIndex(es, key, t, r) <==> AllSeen(es, key, t)
  {
    forall i | 0 <= i < |es| && es[i].key == key
      ensures r.Some? && r.value <= i && es[r.value].tid >= es[i].tid
    {
      if r.value < i {
        IdsDescend(es, r.value, i);
      }
    }
  }

  /** Answers at or before a version too new for t are wrong. */
  lemma NarrowHidden(es: seq<Entry>, idx: nat, t: nat, i: nat)
    requires Sorted(es) && i <= idx < |es| && es[i].key == es[idx].key && 0 < t < es[idx].tid
    ensures !RightIndex(es, es[idx].key, t, Some(i))
  {
    if i < idx {
      IdsDescend(es, i, idx);
    }
  }

  lemma KeyAbsent(es: seq<Entry>, key: Key, i: nat, t: nat)
    requires Sorted(es) && i <= |es| && (i > 0 ==> Less(es[i - 1].key, key)) && (i < |es| ==> Less(key, es[i].key))
    ensures RightIndex(es, key, t, None) && NoneSkipped(es, key, t, None) && FirstOf(es, key, None)
  {
    forall j | 0 <= j < |es|
      ensures es[j].key != key
    {
      LessIrreflexive(key);
      if j < i - 1 {
        assert Before(es[j], es[i - 1]);
        if Less(es[j].key, es[i - 1].key) {
          LessTransitive(es[j].key, es[i - 1].key, key);
        }
      } else if j > i {
        assert Before(es[i], es[j]);
        if Less(es[i].key, es[j].key) {
          LessTransitive(key, es[i].key, es[j].key);
        }
      }
    }
  }

  /** One version with id 65536 in a block: a reader at 65535 is given it. */
  method WideExample() returns (r: Option<nat>)
    ensures r == Some(0) && RightIndex([Entry([1], [2], U16)], [1], U16 - 1, None)
  {
    ghost var e := Entry([1], [2], U16);
    var b := new Block(100);
    var _ := b.AddEntry([1], [2], U16, false);
    assert [] + EncodeEntry(e) == b.data;
    HoldsAppend([], [], [], e);
    HoldsReads(b.data, b.offsets, [e]);
    ghost var es := [e];
    assert es[0].key == [1] && es[0].tid > U16 - 1;
    r := b.GetIndexBinary([1], U16 - 1, es);
  }

  /** Directions along a table: positive, then zero, then negative. */
  ghost predicate Monotone(es: seq<Entry>, dir: Key -> int) {
    forall i, j :: 0 <= i < j < |es| ==> Downhill(dir, es[i].key, es[j].key)
  }

  lemma RangeExact(es: seq<Entry>, dir: Key -> int, b: nat, e: nat)
    requires b <= e <= |es|
    requires b > 0 ==> dir(es[b - 1].key) > 0
    requires b < |es| ==> dir(es[b].key) <= 0
    requires b < e ==> dir(es[e - 1].key) >= 0
    requires e < |es| ==> dir(es[e].key) < 0
    ensures Monotone(es, dir) ==> forall i :: 0 <= i < |es| ==> (dir(es[i].key) == 0 <==> b <= i < e)
  {
    if Monotone(es, dir) {
      forall i | 0 <= i < |es|
        ensures dir(es[i].key) == 0 <==> b <= i < e
      {
        assert i < b - 1 ==> Downhill(dir, es[i].key, es[b - 1].key);
        assert b < i ==> Downhill(dir, es[b].key, es[i].key);
        assert i < e - 1 ==> Downhill(dir, es[i].key, es[e - 1].key);
        assert e < i ==> Downhill(dir, es[e].key, es[i].key);
      }
    }
  }
}
