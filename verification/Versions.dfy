/** Versions of keys: what "the newest version of a key visible at an id" means, first on a
    plain map from (key, id) to value, then on sorted tables, then on a stack of tables. */
module Versions {
  import opened Keys

  type Value = seq<byte>

  datatype Option<+T> = None | Some(value: T)

  /** One version of a key.  An empty value marks a deletion. */
  datatype Entry = Entry(key: Key, value: Value, tid: nat)

  /** All versions, by key and id. */
  type Store = map<(Key, nat), Value>

  /** A reader at id t sees ids up to t; t = 0 sees everything. */
  predicate Visible(tid: nat, t: nat) {
    t == 0 || tid <= t
  }

  /** r is the version of k with the greatest visible id, or nothing if no id is visible. */
  ghost predicate IsNewest(s: Store, k: Key, t: nat, r: Option<Entry>) {
    match r
    case None => forall i: nat :: Visible(i, t) ==> (k, i) !in s
    case Some(e) =>
      && e.key == k && Visible(e.tid, t) && (k, e.tid) in s && s[(k, e.tid)] == e.value
      && forall i: nat :: (k, i) in s && Visible(i, t) ==> i <= e.tid
  }

  /** The newest version is unique. */
  lemma NewestUnique(s: Store, k: Key, t: nat, r: Option<Entry>, q: Option<Entry>)
    requires IsNewest(s, k, t, r) && IsNewest(s, k, t, q)
    ensures r == q
  {
    if r.Some? && q.Some? {
      assert (k, r.value.tid) in s && (k, q.value.tid) in s;
    }
  }

  // ------------------------------------------------------------ sorted tables

  /** Order of a table: keys ascending, newer versions of a key first. */
  predicate Before(a: Entry, b: Entry) {
    Less(a.key, b.key) || (a.key == b.key && a.tid > b.tid)
  }

  ghost predicate Sorted(es: seq<Entry>) {
    forall i, j :: 0 <= i < j < |es| ==> Before(es[i], es[j])
  }

  lemma BeforeTransitive(a: Entry, b: Entry, c: Entry)
    requires Before(a, b) && Before(b, c)
    ensures Before(a, c)
  {
    if Less(a.key, b.key) && Less(b.key, c.key) {
      LessTransitive(a.key, b.key, c.key);
    }
  }

  lemma BeforeTotal(a: Entry, b: Entry)
    ensures Before(a, b) || Before(b, a) || (a.key == b.key && a.tid == b.tid)
    ensures !(Before(a, b) && Before(b, a))
    ensures Before(a, b) ==> (a.key, a.tid) != (b.key, b.tid)
  {
    LessTotal(a.key, b.key);
    LessIrreflexive(a.key);
    if Less(a.key, b.key) {
      LessAsymmetric(a.key, b.key);
    } else if Less(b.key, a.key) {
      LessAsymmetric(b.key, a.key);
    }
  }

  /** The first version of k visible at t. */
  function Lookup(es: seq<Entry>, k: Key, t: nat): Option<Entry> {
    if es == [] then None
    else if es[0].key == k && Visible(es[0].tid, t) then Some(es[0])
    else Lookup(es[1..], k, t)
  }

  /** All versions of a table; a later duplicate would be hidden by an earlier one. */
  ghost function StoreOf(es: seq<Entry>): Store {
    if es == [] then map[] else StoreOf(es[1..])[(es[0].key, es[0].tid) := es[0].value]
  }

  lemma {:induction false} StoreHas(es: seq<Entry>, k: Key, i: nat)
    ensures (k, i) in StoreOf(es) <==> exists j :: 0 <= j < |es| && es[j].key == k && es[j].tid == i
  {
    if es != [] {
      StoreHas(es[1..], k, i);
      if (k, i) in StoreOf(es) && !(es[0].key == k && es[0].tid == i) {
        var j :| 0 <= j < |es[1..]| && es[1..][j].key == k && es[1..][j].tid == i;
        assert es[j + 1] == es[1..][j];
      }
      if j :| 0 <= j < |es| && es[j].key == k && es[j].tid == i {
        if j > 0 {
          assert es[1..][j - 1] == es[j];
        }
      }
    }
  }

  lemma {:induction false} StoreAt(es: seq<Entry>, j: nat)
    requires Sorted(es) && j < |es|
    ensures (es[j].key, es[j].tid) in StoreOf(es) && StoreOf(es)[(es[j].key, es[j].tid)] == es[j].value
  {
    if j > 0 {
      assert Before(es[0], es[j]);
      BeforeTotal(es[0], es[j]);
      assert es[1..][j - 1] == es[j];
      StoreAt(es[1..], j - 1);
    }
  }

  /** es[j] is e, the first visible version of k in es. */
  ghost predicate FoundAt(es: seq<Entry>, k: Key, t: nat, e: Entry, j: int) {
    && 0 <= j < |es| && es[j] == e && e.key == k && Visible(e.tid, t)
    && forall i :: 0 <= i < j ==> !(es[i].key == k && Visible(es[i].tid, t))
  }

  /** What Lookup finds, by position: nothing before it matches. */
  lemma {:induction false} LookupPosition(es: seq<Entry>, k: Key, t: nat)
    ensures var r := Lookup(es, k, t);
      match r
      case None => forall j :: 0 <= j < |es| ==> !(es[j].key == k && Visible(es[j].tid, t))
      case Some(e) => exists j :: FoundAt(es, k, t, e, j)
  {
    if es != [] && es[0].key == k && Visible(es[0].tid, t) {
      assert FoundAt(es, k, t, es[0], 0);
    } else if es != [] {
      LookupPosition(es[1..], k, t);
      var tl := es[1..];
      if Lookup(tl, k, t).Some? {
        var e := Lookup(tl, k, t).value;
        var j :| FoundAt(tl, k, t, e, j);
        assert FoundAt(es, k, t, e, j + 1);
      } else {
        forall j | 0 <= j < |es|
          ensures !(es[j].key == k && Visible(es[j].tid, t))
        {
          assert j > 0 ==> es[j] == tl[j - 1];
        }
      }
    }
  }

  /** In a sorted table, the first visible version of a key is the newest one. */
  lemma LookupIsNewest(es: seq<Entry>, k: Key, t: nat)
    requires Sorted(es)
    ensures IsNewest(StoreOf(es), k, t, Lookup(es, k, t))
  {
    LookupPosition(es, k, t);
    var r := Lookup(es, k, t);
    if r.None? {
      forall i: nat | Visible(i, t)
        ensures (k, i) !in StoreOf(es)
      {
        StoreHas(es, k, i);
      }
    } else {
      var e := r.value;
      assert exists j :: FoundAt(es, k, t, e, j);
      var j :| FoundAt(es, k, t, e, j);
      StoreAt(es, j);
      forall i | (k, i) in StoreOf(es) && Visible(i, t)
        ensures i <= e.tid
      {
        StoreHas(es, k, i);
        var q :| 0 <= q < |es| && es[q].key == k && es[q].tid == i;
        if q > j {
          assert Before(es[j], es[q]);
          LessIrreflexive(k);
        }
      }
    }
  }

  /** Looking past versions of other keys, or invisible ones, changes nothing. */
  lemma LookupSkip(es: seq<Entry>, k: Key, t: nat, q: nat)
    requires q < |es| && !(es[q].key == k && Visible(es[q].tid, t))
    ensures Lookup(es[q..], k, t) == Lookup(es[q + 1..], k, t)
  {
    assert es[q..][0] == es[q] && es[q..][1..] == es[q + 1..];
  }

  lemma {:induction false} LookupSkipAll(es: seq<Entry>, k: Key, t: nat, q: nat)
    requires q <= |es| && forall j :: 0 <= j < q ==> es[j].key != k
    ensures Lookup(es, k, t) == Lookup(es[q..], k, t)
  {
    if q == 0 {
      assert es[0..] == es;
    } else {
      LookupSkipAll(es, k, t, q - 1);
      LookupSkip(es, k, t, q - 1);
    }
  }

  /** Past the last version of k there is nothing to find. */
  lemma LookupBeyond(es: seq<Entry>, k: Key, t: nat, q: nat)
    requires Sorted(es) && q <= |es| && (q < |es| ==> Less(k, es[q].key))
    ensures Lookup(es[q..], k, t) == None
  {
    var tl := es[q..];
    LookupPosition(tl, k, t);
    if Lookup(tl, k, t).Some? {
      var j :| FoundAt(tl, k, t, Lookup(tl, k, t).value, j);
      assert tl[j] == es[q + j];
      LessIrreflexive(k);
      if j > 0 {
        assert Before(es[q], es[q + j]);
        LessAsymmetric(k, es[q].key);
      }
    }
  }

  // ------------------------------------------------------------ writing into a table

  /** Writes e into a sorted table: over the same version if there is one, else in its place. */
  function PutSorted(es: seq<Entry>, e: Entry): seq<Entry> {
    if es == [] then [e]
    else if Before(es[0], e) then [es[0]] + PutSorted(es[1..], e)
    else if es[0].key == e.key && es[0].tid == e.tid then [e] + es[1..]
    else [e] + es
  }

  /** The same by position, where p versions come before e. */
  lemma {:induction false} PutSortedAt(es: seq<Entry>, e: Entry, p: nat)
    requires p <= |es| && (forall j :: 0 <= j < p ==> Before(es[j], e)) && (p < |es| ==> !Before(es[p], e))
    ensures PutSorted(es, e) == (if p < |es| && es[p].key == e.key && es[p].tid == e.tid then es[p := e]
      else es[..p] + [e] + es[p..])
  {
    hide Before;
    if p > 0 {
      var tl := es[1..];
      PutSortedAt(tl, e, p - 1);
      ConsInsert(es, e, p);
    }
  }

  lemma ConsInsert(es: seq<Entry>, e: Entry, p: nat)
    requires 0 < p <= |es|
    ensures var tl := es[1..];
      && [es[0]] + (tl[..p - 1] + [e] + tl[p - 1..]) == es[..p] + [e] + es[p..]
      && (p < |es| ==> tl[p - 1] == es[p] && [es[0]] + tl[p - 1 := e] == es[p := e])
  {
    assert es[1..][..p - 1] == es[1..p] && es[..p] == [es[0]] + es[1..p];
    assert es[1..][p - 1..] == es[p..];
  }

  lemma {:induction false} PutSortedMember(es: seq<Entry>, e: Entry, x: Entry)
    ensures x in PutSorted(es, e) ==> x == e || x in es
    ensures e in PutSorted(es, e)
  {
    if es != [] {
      PutSortedMember(es[1..], e, x);
    }
  }

  lemma {:induction false} PutSortedSorted(es: seq<Entry>, e: Entry)
    requires Sorted(es)
    ensures Sorted(PutSorted(es, e))
  {
    if es != [] {
      var tl := es[1..];
      PutSortedSorted(tl, e);
      BeforeTotal(es[0], e);
      if Before(es[0], e) {
        forall j | 0 <= j < |PutSorted(tl, e)|
          ensures Before(es[0], PutSorted(tl, e)[j])
        {
          PutSortedMember(tl, e, PutSorted(tl, e)[j]);
          assert forall x :: x in tl ==> exists k :: 0 < k < |es| && es[k] == x;
        }
      } else {
        forall j | 0 < j < |es|
          ensures Before(e, es[j])
        {
          if es[0].key != e.key || es[0].tid != e.tid {
            BeforeTransitive(e, es[0], es[j]);
          }
        }
      }
    }
  }

  /** As a store, writing e adds or replaces exactly the version (key, id). */
  lemma {:induction false} PutSortedStore(es: seq<Entry>, e: Entry)
    requires Sorted(es)
    ensures StoreOf(PutSorted(es, e)) == StoreOf(es)[(e.key, e.tid) := e.value]
  {
    if es != [] {
      BeforeTotal(es[0], e);
      var tl := es[1..];
      if Before(es[0], e) {
        PutSortedStore(tl, e);
        assert ([es[0]] + PutSorted(tl, e))[1..] == PutSorted(tl, e);
      } else {
        assert ([e] + tl)[1..] == tl && ([e] + es)[1..] == es;
      }
    }
  }

  // ------------------------------------------------------------ a stack of tables

  /** The first table, newest first, that has a visible version of k decides. */
  function FirstMatch(tables: seq<seq<Entry>>, k: Key, t: nat): Option<Entry> {
    if tables == [] then None
    else
      var r := Lookup(tables[0], k, t);
      if r.Some? then r else FirstMatch(tables[1..], k, t)
  }

  /** All versions in all tables; a newer table overrides an older one. */
  ghost function StoreOfTables(tables: seq<seq<Entry>>): Store {
    if tables == [] then map[] else StoreOfTables(tables[1..]) + StoreOf(tables[0])
  }

  /** Per key, ids in a newer table are not below ids in an older one. */
  ghost predicate TablesOrdered(tables: seq<seq<Entry>>) {
    forall i, j :: 0 <= i < j < |tables| ==> TableAbove(tables[i], tables[j])
  }

  ghost predicate TableAbove(newer: seq<Entry>, older: seq<Entry>) {
    forall a, b :: a in newer && b in older && a.key == b.key ==> a.tid >= b.tid
  }

  ghost predicate AllSorted(tables: seq<seq<Entry>>) {
    forall i :: 0 <= i < |tables| ==> Sorted(tables[i])
  }

  lemma {:induction false} TablesHas(tables: seq<seq<Entry>>, k: Key, i: nat)
    ensures (k, i) in StoreOfTables(tables) <==> exists j :: 0 <= j < |tables| && (k, i) in StoreOf(tables[j])
  {
    if tables != [] {
      TablesHas(tables[1..], k, i);
      if (k, i) in StoreOfTables(tables) && (k, i) !in StoreOf(tables[0]) {
        var j :| 0 <= j < |tables[1..]| && (k, i) in StoreOf(tables[1..][j]);
        assert tables[j + 1] == tables[1..][j];
      }
      if j :| 0 <= j < |tables| && (k, i) in StoreOf(tables[j]) {
        assert j > 0 ==> tables[1..][j - 1] == tables[j];
      }
    }
  }

  /** First-match search over ordered tables finds the newest visible version of all. */
  lemma {:induction false} FirstMatchIsNewest(tables: seq<seq<Entry>>, k: Key, t: nat)
    requires AllSorted(tables) && TablesOrdered(tables)
    ensures IsNewest(StoreOfTables(tables), k, t, FirstMatch(tables, k, t))
  {
    if tables != [] {
      var tl := tables[1..];
      assert forall i :: 0 <= i < |tl| ==> tl[i] == tables[i + 1];
      FirstMatchIsNewest(tl, k, t);
      LookupIsNewest(tables[0], k, t);
      var r := Lookup(tables[0], k, t);
      if r.Some? {
        NewerTableWins(tables, k, t, r.value);
      }
    }
  }

  lemma NewerTableWins(tables: seq<seq<Entry>>, k: Key, t: nat, e: Entry)
    requires tables != [] && AllSorted(tables) && TablesOrdered(tables) && IsNewest(StoreOf(tables[0]), k, t, Some(e))
    ensures forall i :: (k, i) in StoreOfTables(tables) && Visible(i, t) ==> i <= e.tid
  {
    StoreHas(tables[0], k, e.tid);
    var p :| 0 <= p < |tables[0]| && tables[0][p].key == k && tables[0][p].tid == e.tid;
    forall i | (k, i) in StoreOfTables(tables) && Visible(i, t)
      ensures i <= e.tid
    {
      TablesHas(tables, k, i);
      var j :| 0 <= j < |tables| && (k, i) in StoreOf(tables[j]);
      if j > 0 {
        assert TableAbove(tables[0], tables[j]);
        StoreHas(tables[j], k, i);
        var q :| 0 <= q < |tables[j]| && tables[j][q].key == k && tables[j][q].tid == i;
        assert tables[0][p] in tables[0] && tables[j][q] in tables[j];
      }
    }
  }
}
