/** The LRU-K block cache: entries with fewer than k accesses are evicted first. */
module BlockCaches {
  import opened Versions

  type Id = (int, int)

  datatype CacheItem<T> = CacheItem(id: Id, block: T, count: nat)

  /** Which of the two lists an entry is in. */
  datatype Place = LessK | GreaterK

  /** The ids in a list. */
  function Ids<T>(list: seq<CacheItem<T>>): set<Id> {
    if list == [] then {} else {list[0].id} + Ids(list[1..])
  }

  ghost predicate DistinctIds<T>(list: seq<CacheItem<T>>) {
    list == [] || (list[0].id !in Ids(list[1..]) && DistinctIds(list[1..]))
  }

  function Drop<T>(list: seq<CacheItem<T>>, i: nat): seq<CacheItem<T>>
    requires i < |list|
  {
    list[..i] + list[i + 1..]
  }

  lemma {:induction false} IdAt<T>(list: seq<CacheItem<T>>, i: nat)
    requires i < |list|
    ensures list[i].id in Ids(list)
  {
    if i > 0 {
      IdAt(list[1..], i - 1);
    }
  }

  lemma {:induction false} IdsDrop<T>(list: seq<CacheItem<T>>, i: nat)
    requires i < |list| && DistinctIds(list)
    ensures Ids(Drop(list, i)) == Ids(list) - {list[i].id} && DistinctIds(Drop(list, i))
  {
    if i == 0 {
      assert Drop(list, 0) == list[1..];
    } else {
      IdsDrop(list[1..], i - 1);
      IdAt(list[1..], i - 1);
      assert Drop(list, i) == [list[0]] + Drop(list[1..], i - 1);
      assert Drop(list, i)[1..] == Drop(list[1..], i - 1);
    }
  }

  lemma IdsFront<T>(list: seq<CacheItem<T>>, x: CacheItem<T>)
    ensures Ids([x] + list) == {x.id} + Ids(list)
    ensures DistinctIds(list) && x.id !in Ids(list) ==> DistinctIds([x] + list)
  {
    assert ([x] + list)[1..] == list;
  }

  /** Distinct ids: as many as there are entries. */
  lemma {:induction false} IdsCount<T>(list: seq<CacheItem<T>>)
    requires DistinctIds(list)
    ensures |Ids(list)| == |list|
  {
    if list != [] {
      IdsCount(list[1..]);
    }
  }

  /** Most recently accessed first; all accesses before the clock; contents and counts as given. */
  ghost predicate ListOk<T>(list: seq<CacheItem<T>>, last: map<Id, nat>, latest: map<Id, (T, nat)>, lo: nat, hi: nat) {
    && (forall i :: 0 <= i < |list| ==>
      list[i].id in last && list[i].id in latest && latest[list[i].id] == (list[i].block, list[i].count))
    && (forall i :: 0 <= i < |list| ==> lo <= list[i].count && (hi > 0 ==> list[i].count < hi))
    && (forall i, j :: 0 <= i < j < |list| ==> last[list[i].id] > last[list[j].id])
  }

  ghost predicate Past(last: map<Id, nat>, clock: nat) {
    forall id :: id in last ==> last[id] < clock
  }

  lemma DropOk<T>(list: seq<CacheItem<T>>, i: nat, last: map<Id, nat>, latest: map<Id, (T, nat)>, lo: nat, hi: nat)
    requires i < |list| && ListOk(list, last, latest, lo, hi)
    ensures ListOk(Drop(list, i), last, latest, lo, hi)
  {
    var r := Drop(list, i);
    assert forall j :: 0 <= j < |r| ==> r[j] == list[if j < i then j else j + 1];
  }

  /** An access to, or a new block for, an entry elsewhere changes nothing here. */
  lemma ElsewhereOk<T>(list: seq<CacheItem<T>>, id: Id, b: (T, nat), last: map<Id, nat>, latest: map<Id, (T, nat)>,
      clock: nat, lo: nat, hi: nat)
    requires ListOk(list, last, latest, lo, hi) && id !in Ids(list)
    ensures ListOk(list, last[id := clock], latest[id := b], lo, hi)
  {
    forall i | 0 <= i < |list|
      ensures list[i].id != id
    {
      IdAt(list, i);
    }
  }

  /** The accessed entry goes to the front. */
  lemma FrontOk<T>(list: seq<CacheItem<T>>, x: CacheItem<T>, last: map<Id, nat>, latest: map<Id, (T, nat)>, clock: nat,
      lo: nat, hi: nat)
    requires
      && ListOk(list, last, latest, lo, hi) && x.id !in Ids(list) && Past(last, clock) && lo <= x.count
      && (hi > 0 ==> x.count < hi)
    ensures ListOk([x] + list, last[x.id := clock], latest[x.id := (x.block, x.count)], lo, hi)
  {
    ElsewhereOk(list, x.id, (x.block, x.count), last, latest, clock, lo, hi);
    var r := [x] + list;
    assert forall j :: 0 < j < |r| ==> r[j] == list[j - 1];
  }

  /** The index is the disjoint union of the two lists. */
  ghost predicate IndexedBy<T>(less: seq<CacheItem<T>>, greater: seq<CacheItem<T>>, index: map<Id, Place>) {
    && DistinctIds(less) && DistinctIds(greater) && Ids(less) !! Ids(greater) && index.Keys == Ids(less) + Ids(greater)
    && (forall id :: id in index ==> (index[id] == LessK <==> id in Ids(less)))
  }

  /** Fewer than k accesses in one list, at least k in the other; both in order of last access. */
  ghost predicate OrderedBy<T>(less: seq<CacheItem<T>>, greater: seq<CacheItem<T>>, last: map<Id, nat>,
      latest: map<Id, (T, nat)>, clock: nat, k: nat) {
    ListOk(less, last, latest, 0, k) && ListOk(greater, last, latest, k, 0) && Past(last, clock)
  }

  /** An access to entry i of the first list, which stays there. */
  lemma AccessLess<T>(less: seq<CacheItem<T>>, greater: seq<CacheItem<T>>, index: map<Id, Place>, last: map<Id, nat>,
      latest: map<Id, (T, nat)>, clock: nat, k: nat, i: nat, x: CacheItem<T>)
    requires
      && IndexedBy(less, greater, index) && OrderedBy(less, greater, last, latest, clock, k) && i < |less|
      && x.id == less[i].id && x.count < k
    ensures IndexedBy([x] + Drop(less, i), greater, index)
    ensures OrderedBy([x] + Drop(less, i), greater, last[x.id := clock], latest[x.id := (x.block, x.count)], clock + 1,
        k)
  {
    hide ListOk, DistinctIds, Ids;
    var rest := Drop(less, i);
    IdAt(less, i);
    IdsDrop(less, i);
    IdsFront(rest, x);
    DropOk(less, i, last, latest, 0, k);
    FrontOk(rest, x, last, latest, clock, 0, k);
    ElsewhereOk(greater, x.id, (x.block, x.count), last, latest, clock, k, 0);
  }

  /** The k-th access: the entry moves to the front of the second list. */
  lemma AccessUp<T>(less: seq<CacheItem<T>>, greater: seq<CacheItem<T>>, index: map<Id, Place>, last: map<Id, nat>,
      latest: map<Id, (T, nat)>, clock: nat, k: nat, i: nat, x: CacheItem<T>)
    requires
      && IndexedBy(less, greater, index) && OrderedBy(less, greater, last, latest, clock, k) && i < |less|
      && x.id == less[i].id && x.count >= k
    ensures IndexedBy(Drop(less, i), [x] + greater, index[x.id := GreaterK])
    ensures OrderedBy(Drop(less, i), [x] + greater, last[x.id := clock], latest[x.id := (x.block, x.count)], clock + 1,
        k)
  {
    hide ListOk, DistinctIds, Ids;
    var rest := Drop(less, i);
    IdAt(less, i);
    IdsDrop(less, i);
    IdsFront(greater, x);
    DropOk(less, i, last, latest, 0, k);
    FrontOk(greater, x, last, latest, clock, k, 0);
    ElsewhereOk(rest, x.id, (x.block, x.count), last, latest, clock, 0, k);
  }

  lemma AccessGreater<T>(less: seq<CacheItem<T>>, greater: seq<CacheItem<T>>, index: map<Id, Place>, last: map<Id, nat>,
      latest: map<Id, (T, nat)>, clock: nat, k: nat, i: nat, x: CacheItem<T>)
    requires
      && IndexedBy(less, greater, index) && OrderedBy(less, greater, last, latest, clock, k) && i < |greater|
      && x.id == greater[i].id && x.count >= k
    ensures IndexedBy(less, [x] + Drop(greater, i), index)
    ensures OrderedBy(less, [x] + Drop(greater, i), last[x.id := clock], latest[x.id := (x.block, x.count)], clock + 1,
        k)
  {
    hide ListOk, DistinctIds, Ids;
    var rest := Drop(greater, i);
    IdAt(greater, i);
    IdsDrop(greater, i);
    IdsFront(rest, x);
    DropOk(greater, i, last, latest, k, 0);
    FrontOk(rest, x, last, latest, clock, k, 0);
    ElsewhereOk(less, x.id, (x.block, x.count), last, latest, clock, 0, k);
  }

  lemma InsertNew<T>(less: seq<CacheItem<T>>, greater: seq<CacheItem<T>>, index: map<Id, Place>, last: map<Id, nat>,
      latest: map<Id, (T, nat)>, clock: nat, k: nat, x: CacheItem<T>)
    requires
      && IndexedBy(less, greater, index) && OrderedBy(less, greater, last, latest, clock, k) && x.id !in index
      && x.count < k
    ensures IndexedBy([x] + less, greater, index[x.id := LessK])
    ensures OrderedBy([x] + less, greater, last[x.id := clock], latest[x.id := (x.block, x.count)], clock + 1, k)
  {
    hide ListOk, DistinctIds, Ids;
    IdsFront(less, x);
    FrontOk(less, x, last, latest, clock, 0, k);
    ElsewhereOk(greater, x.id, (x.block, x.count), last, latest, clock, k, 0);
  }

  /** v is the entry to go: least recently used among those with fewer than k accesses, if any. */
  ghost predicate Victim<T>(less: seq<CacheItem<T>>, greater: seq<CacheItem<T>>, last: map<Id, nat>, v: Id) {
    if less != [] then Oldest(less, last, v) else Oldest(greater, last, v)
  }

  ghost predicate Oldest<T>(list: seq<CacheItem<T>>, last: map<Id, nat>, v: Id) {
    v in Ids(list) && v in last && forall i :: 0 <= i < |list| ==> list[i].id in last && last[v] <= last[list[i].id]
  }

  /** Of the entries, v has waited longest since its last access among those with fewer than k accesses;
      if there are none of those, among all. */
  ghost predicate LongestUnused<T>(ids: set<Id>, last: map<Id, nat>, latest: map<Id, (T, nat)>, k: nat, v: Id) {
    && v in ids && (forall w :: w in ids ==> w in last && w in latest)
    && (forall w :: w in ids && latest[w].1 < k ==> latest[v].1 < k && last[v] <= last[w])
    && (latest[v].1 >= k ==> forall w :: w in ids ==> last[v] <= last[w])
  }

  lemma VictimMeaning<T>(less: seq<CacheItem<T>>, greater: seq<CacheItem<T>>, index: map<Id, Place>,
      last: map<Id, nat>, latest: map<Id, (T, nat)>, clock: nat, k: nat, v: Id)
    requires
      && IndexedBy(less, greater, index) && OrderedBy(less, greater, last, latest, clock, k)
      && Victim(less, greater, last, v) && k >= 1
    ensures LongestUnused(index.Keys, last, latest, k, v)
  {
    hide DistinctIds, Ids;
    var list := if less != [] then less else greater;
    assert Oldest(list, last, v);
    forall w | w in index.Keys
      ensures w in last && w in latest && (w in Ids(less) <==> latest[w].1 < k)
      ensures w in Ids(list) ==> last[v] <= last[w]
    {
      if w in Ids(less) {
        var i := IdIn(less, w);
        assert less[i].id == w && latest[less[i].id].1 == less[i].count;
      } else {
        var i := IdIn(greater, w);
        assert greater[i].id == w && latest[greater[i].id].1 == greater[i].count;
      }
      if w in Ids(list) {
        var i := IdIn(list, w);
      }
    }
    if less != [] {
      IdAt(less, 0);
    } else {
      NoIds(less);
    }
  }

  lemma NoIds<T>(list: seq<CacheItem<T>>)
    requires list == []
    ensures Ids(list) == {}
  {
  }

  lemma {:induction false} IdIn<T>(list: seq<CacheItem<T>>, id: Id) returns (i: nat)
    requires id in Ids(list)
    ensures i < |list| && list[i].id == id
  {
    if list[0].id == id {
      i := 0;
    } else {
      i := IdIn(list[1..], id);
      i := i + 1;
    }
  }

  lemma LastIsOldest<T>(list: seq<CacheItem<T>>, last: map<Id, nat>, latest: map<Id, (T, nat)>, lo: nat, hi: nat)
    requires ListOk(list, last, latest, lo, hi) && list != []
    ensures list[|list| - 1].id in last
    ensures forall i :: 0 <= i < |list| ==> list[i].id in last && last[list[|list| - 1].id] <= last[list[i].id]
  {
  }

  lemma {:induction false} EvictLess<T>(less: seq<CacheItem<T>>, greater: seq<CacheItem<T>>, index: map<Id, Place>,
      last: map<Id, nat>, latest: map<Id, (T, nat)>, clock: nat, k: nat)
    requires IndexedBy(less, greater, index) && OrderedBy(less, greater, last, latest, clock, k) && less != []
    ensures var n := |less| - 1; var v := less[n].id;
      && v in index && IndexedBy(less[..n], greater, index - {v})
      && OrderedBy(less[..n], greater, last, latest, clock, k)
      && Victim(less, greater, last, v)
  {
    hide ListOk, DistinctIds, Ids;
    var n := |less| - 1;
    assert Drop(less, n) == less[..n];
    IdAt(less, n);
    IdsDrop(less, n);
    DropOk(less, n, last, latest, 0, k);
    LastIsOldest(less, last, latest, 0, k);
  }

  lemma {:induction false} EvictGreater<T>(less: seq<CacheItem<T>>, greater: seq<CacheItem<T>>, index: map<Id, Place>,
      last: map<Id, nat>, latest: map<Id, (T, nat)>, clock: nat, k: nat)
    requires
      && IndexedBy(less, greater, index) && OrderedBy(less, greater, last, latest, clock, k) && less == []
      && index.Keys != {}
    ensures greater != []
    ensures var n := |greater| - 1; var v := greater[n].id;
      && v in index && IndexedBy(less, greater[..n], index - {v})
      && OrderedBy(less, greater[..n], last, latest, clock, k)
      && Victim(less, greater, last, v)
  {
    hide ListOk, DistinctIds;
    var n := |greater| - 1;
    assert Drop(greater, n) == greater[..n];
    IdAt(greater, n);
    IdsDrop(greater, n);
    DropOk(greater, n, last, latest, k, 0);
    LastIsOldest(greater, last, latest, k, 0);
  }

  lemma SameSize(index: map<Id, Place>, id: Id, p: Place)
    requires id in index
    ensures index[id := p].Keys == index.Keys && |index[id := p]| == |index|
  {
    assert index[id := p].Keys == index.Keys;
    assert |index[id := p]| == |index[id := p].Keys| && |index| == |index.Keys|;
  }

  class BlockCache<T(==)> {
    const capacity: nat
    const k: nat
    var greater: seq<CacheItem<T>>
    var less: seq<CacheItem<T>>
    var index: map<Id, Place>
    var totalRequests: nat
    var hitRequests: nat
    ghost var last: map<Id, nat>
    ghost var clock: nat
    // The block last put under an id, and the accesses counted since it came in.
    ghost var latest: map<Id, (T, nat)>

    ghost predicate Valid()
      reads this
    {
      && capacity >= 1 && k >= 2 && |index| <= capacity && hitRequests <= totalRequests
      && IndexedBy(less, greater, index) && OrderedBy(less, greater, last, latest, clock, k)
    }

    constructor (capacity: nat, k: nat)
      requires capacity >= 1 && k >= 2
      ensures Valid() && index == map[] && this.capacity == capacity && this.k == k && latest == map[]
    {
      this.capacity, this.k := capacity, k;
      greater, less, index := [], [], map[];
      totalRequests, hitRequests := 0, 0;
      last, clock, latest := map[], 0, map[];
    }

    /** A hit returns the block last put under the id, and counts as an access. */
    method Get(id: Id) returns (r: Option<T>)
      requires Valid()
      modifies this
      ensures Valid() && index.Keys == old(index.Keys)
      ensures if id in old(index) then
          && id in old(latest) && r == Some(old(latest)[id].0)
          && latest == old(latest)[id := (old(latest)[id].0, old(latest)[id].1 + 1)]
          && last == old(last)[id := old(clock)]
        else r == None && latest == old(latest) && last == old(last)
      ensures
        && totalRequests == old(totalRequests) + 1
        && hitRequests == old(hitRequests) + (if id in old(index) then 1 else 0)
    {
      hide IndexedBy, OrderedBy;
      totalRequests := totalRequests + 1;
      if id !in index {
        return None;
      }
      hitRequests := hitRequests + 1;
      var b := BlockOf(id);
      Touch(id, b);
      r := Some(b);
    }

    /** Puts a block; a new one evicts, if the cache is full, the least recently used entry with
        fewer than k accesses, or the least recently used of all if there is none. */
    method Put(id: Id, block: T)
      requires Valid()
      modifies this
      ensures Valid() && id in index && last == old(last)[id := old(clock)]
      ensures id in old(index) ==> id in old(latest) && latest == old(latest)[id := (block, old(latest)[id].1 + 1)]
      ensures id !in old(index) ==> latest == old(latest)[id := (block, 1)]
      ensures id in old(index) ==> index.Keys == old(index.Keys)
      ensures id !in old(index) && |old(index)| < capacity ==> index.Keys == old(index.Keys) + {id}
      ensures id !in old(index) && |old(index)| >= capacity ==>
        exists v: Id ::
          && LongestUnused(old(index.Keys), old(last), old(latest), k, v)
          && index.Keys == old(index.Keys) - {v} + {id}
    {
      hide IndexedBy, OrderedBy, LongestUnused;
      if id in index {
        Touch(id, block);
      } else {
        if |index| >= capacity {
          Evict();
        }
        Insert(id, block);
      }
    }

    /** The position of an entry in its list. */
    method Find(list: seq<CacheItem<T>>, id: Id) returns (i: nat)
      requires id in Ids(list)
      ensures i < |list| && list[i].id == id
    {
      i := 0;
      while list[i].id != id
        invariant i < |list| && id in Ids(list[i..])
        decreases |list| - i
      {
        assert list[i..][1..] == list[i + 1..];
        i := i + 1;
      }
    }

    method BlockOf(id: Id) returns (b: T)
      requires Valid() && id in index
      ensures id in latest && b == latest[id].0
    {
      if index[id] == LessK {
        var i := Find(less, id);
        b := less[i].block;
      } else {
        var i := Find(greater, id);
        b := greater[i].block;
      }
    }

    /** Counts an access and moves the entry to the front, of the other list on its k-th access. */
    method Touch(id: Id, block: T)
      requires Valid() && id in index
      modifies `less, `greater, `index, `last, `latest, `clock
      ensures Valid() && index.Keys == old(index.Keys) && last == old(last)[id := old(clock)]
      ensures id in old(latest) && latest == old(latest)[id := (block, old(latest)[id].1 + 1)]
    {
      hide IndexedBy, OrderedBy;
      var i := Locate(id);
      if index[id] == LessK {
        TouchLess(id, block, i);
      } else {
        var x := CacheItem(id, block, greater[i].count + 1);
        AccessGreater(less, greater, index, last, latest, clock, k, i, x);
        greater := [x] + Drop(greater, i);
        last, latest, clock := last[id := clock], latest[id := (block, x.count)], clock + 1;
      }
    }

    method TouchLess(id: Id, block: T, i: nat)
      requires Valid() && id in index && i < |less| && less[i].id == id && id in latest && less[i].count == latest[id].1
      modifies `less, `greater, `index, `last, `latest, `clock
      ensures Valid() && index.Keys == old(index.Keys) && last == old(last)[id := old(clock)]
      ensures id in old(latest) && latest == old(latest)[id := (block, old(latest)[id].1 + 1)]
    {
      hide IndexedBy, OrderedBy;
      var x := CacheItem(id, block, less[i].count + 1);
      if x.count < k {
        AccessLess(less, greater, index, last, latest, clock, k, i, x);
        less := [x] + Drop(less, i);
      } else {
        AccessUp(less, greater, index, last, latest, clock, k, i, x);
        less, greater := Drop(less, i), [x] + greater;
        SameSize(index, id, GreaterK);
        index := index[id := GreaterK];
      }
      last, latest, clock := last[id := clock], latest[id := (block, x.count)], clock + 1;
    }

    /** The entry of an indexed id. */
    method Locate(id: Id) returns (i: nat)
      requires Valid() && id in index
      ensures id in latest
      ensures if index[id] == LessK then i < |less| && less[i].id == id && less[i].count == latest[id].1
        else i < |greater| && greater[i].id == id && greater[i].count == latest[id].1 >= k
    {
      hide Ids;
      if index[id] == LessK {
        i := Find(less, id);
      } else {
        i := Find(greater, id);
      }
    }

    /** Removes the entry at the back of the first list that has one. */
    method Evict()
      requires Valid() && |index| >= capacity
      modifies `less, `greater, `index
      ensures Valid() && |index| < capacity
      ensures exists v: Id ::
        LongestUnused(old(index.Keys), last, latest, k, v) && index.Keys == old(index.Keys) - {v}
    {
      hide IndexedBy, OrderedBy, Victim, LongestUnused;
      if less != [] {
        EvictLess(less, greater, index, last, latest, clock, k);
        var v := less[|less| - 1].id;
        VictimMeaning(less, greater, index, last, latest, clock, k, v);
        index := index - {v};
        less := less[..|less| - 1];
      } else {
        EvictGreater(less, greater, index, last, latest, clock, k);
        var v := greater[|greater| - 1].id;
        VictimMeaning(less, greater, index, last, latest, clock, k, v);
        index := index - {v};
        greater := greater[..|greater| - 1];
      }
    }

    /** A new entry with one access, in front. */
    method Insert(id: Id, block: T)
      requires Valid() && id !in index && |index| < capacity
      modifies `less, `index, `last, `latest, `clock
      ensures
        && Valid() && index.Keys == old(index.Keys) + {id} && last == old(last)[id := old(clock)]
        && latest == old(latest)[id := (block, 1)]
    {
      hide IndexedBy, OrderedBy;
      var x := CacheItem(id, block, 1);
      InsertNew(less, greater, index, last, latest, clock, k, x);
      less := [x] + less;
      index := index[id := LessK];
      last, latest, clock := last[id := clock], latest[id := (block, x.count)], clock + 1;
    }
  }

  /** Every list entry is indexed once, so the lists together never outgrow the capacity. */
  lemma SizesAgree<T>(c: BlockCache<T>)
    requires c.Valid()
    ensures |c.index| == |c.less| + |c.greater| <= c.capacity
  {
    IdsCount(c.less);
    IdsCount(c.greater);
    assert |c.index| == |c.index.Keys| == |Ids(c.less) + Ids(c.greater)|;
  }
}
