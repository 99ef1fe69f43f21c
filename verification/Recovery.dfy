/** What a transaction's records mean, and what replaying a log rebuilds. */
module Recovery {
  import opened Keys
  import opened Versions
  import opened Records
  import opened Layers

  /** The last value a list of records gives each key; a deletion gives the empty value. */
  function FinalValues(rs: seq<Record>): map<Key, Value> {
    if rs == [] then map[] else Effect(FinalValues(rs[..|rs| - 1]), rs[|rs| - 1])
  }

  function Effect(m: map<Key, Value>, r: Record): map<Key, Value> {
    match r
    case Put(_, k, v) => m[k := v]
    case Delete(_, k) => m[k := []]
    case _ => m
  }

  /** The versions of the given ids, as their records leave them. */
  ghost predicate Rebuilt(s: Store, ids: set<nat>, logs: map<nat, seq<Record>>) {
    && (forall k, i :: (k, i) in s <==> i in ids && i in logs && k in FinalValues(logs[i]))
    && (forall k, i :: (k, i) in s ==> i in logs && k in FinalValues(logs[i]) && s[(k, i)] == FinalValues(logs[i])[k])
  }

  /** The write a record stands for. */
  function WriteOf(r: Record, id: nat): seq<Entry> {
    match r
    case Put(_, k, v) => [Entry(k, v, id)]
    case Delete(_, k) => [Entry(k, [], id)]
    case _ => []
  }

  function WritesOf(rs: seq<Record>, id: nat): seq<Entry> {
    if rs == [] then [] else WritesOf(rs[..|rs| - 1], id) + WriteOf(rs[|rs| - 1], id)
  }

  /** One store has the given values of an id beside what the other has. */
  ghost predicate Adds(s: Store, s': Store, vals: map<Key, Value>, id: nat) {
    && (forall k, i :: (k, i) in s' <==> (k, i) in s || (i == id && k in vals))
    && (forall k, i :: (k, i) in s' ==>
      if i == id && k in vals then s'[(k, i)] == vals[k] else (k, i) in s && s'[(k, i)] == s[(k, i)])
  }

  lemma AddsOne(s: Store, s': Store, vals: map<Key, Value>, id: nat, k: Key, v: Value)
    requires Adds(s, s', vals, id)
    ensures Adds(s, s'[(k, id) := v], vals[k := v], id)
  {
  }

  lemma {:induction false} ReplayLast(ws: seq<Entry>, e: Entry)
    ensures Replay(ws + [e]) == Replay(ws)[(e.key, e.tid) := e.value]
  {
    assert (ws + [e])[..|ws|] == ws;
  }

  /** Replaying the records of one id, in order, leaves exactly its final values. */
  lemma {:induction false} ReplayOne(ws: seq<Entry>, rs: seq<Record>, id: nat)
    ensures Adds(Replay(ws), Replay(ws + WritesOf(rs, id)), FinalValues(rs), id)
  {
    hide Replay;
    if rs == [] {
      assert ws + [] == ws;
    } else {
      var front, r := rs[..|rs| - 1], rs[|rs| - 1];
      ReplayOne(ws, front, id);
      OneRecord(ws, ws + WritesOf(front, id), FinalValues(front), r, id);
      assert ws + WritesOf(rs, id) == ws + WritesOf(front, id) + WriteOf(r, id);
    }
  }

  lemma {:induction false} OneRecord(ws: seq<Entry>, w: seq<Entry>, vals: map<Key, Value>, r: Record, id: nat)
    requires Adds(Replay(ws), Replay(w), vals, id)
    ensures Adds(Replay(ws), Replay(w + WriteOf(r, id)), Effect(vals, r), id)
  {
    hide Replay, Adds;
    match r {
      case Put(_, k, v) =>
        ReplayLast(w, Entry(k, v, id));
        AddsOne(Replay(ws), Replay(w), vals, id, k, v);
      case Delete(_, k) =>
        ReplayLast(w, Entry(k, [], id));
        AddsOne(Replay(ws), Replay(w), vals, id, k, []);
      case _ =>
        assert w + [] == w;
    }
  }

  lemma RebuiltStep(ws: seq<Entry>, ids: set<nat>, logs: map<nat, seq<Record>>, id: nat)
    requires Rebuilt(Replay(ws), ids, logs) && id !in ids && id in logs
    ensures Rebuilt(Replay(ws + WritesOf(logs[id], id)), ids + {id}, logs)
  {
    ReplayOne(ws, logs[id], id);
  }

  /** Ids of a list of writes. */
  ghost predicate IdsUpTo(ws: seq<Entry>, id: nat) {
    forall i :: 0 <= i < |ws| ==> ws[i].tid <= id
  }

  lemma {:induction false} WritesHaveId(rs: seq<Record>, id: nat)
    ensures forall i :: 0 <= i < |WritesOf(rs, id)| ==> WritesOf(rs, id)[i].tid == id
  {
    if rs != [] {
      WritesHaveId(rs[..|rs| - 1], id);
    }
  }

  /** Writes come with ids that never fall. */
  ghost predicate IdsRise(ws: seq<Entry>) {
    forall i, j :: 0 <= i < j < |ws| ==> ws[i].tid <= ws[j].tid
  }

  lemma RiseStep(ws: seq<Entry>, rs: seq<Record>, id: nat)
    requires IdsRise(ws) && IdsUpTo(ws, id)
    ensures IdsRise(ws + WritesOf(rs, id)) && IdsUpTo(ws + WritesOf(rs, id), id)
  {
    WritesHaveId(rs, id);
  }

  /** The smallest of a set of ids. */
  method Least(ids: set<nat>) returns (m: nat)
    requires ids != {}
    ensures m in ids && forall i :: i in ids ==> m <= i
  {
    m :| m in ids;
    var rest := ids - {m};
    while rest != {}
      invariant m in ids && rest <= ids && forall i :: i in ids && i !in rest ==> m <= i
      decreases rest
    {
      var i :| i in rest;
      if i < m {
        m := i;
      }
      rest := rest - {i};
    }
  }

  /** The replay loop: transactions in order of their ids, each record as a write. */
  method ReplayAll(logs: map<nat, seq<Record>>) returns (ws: seq<Entry>)
    ensures Rebuilt(Replay(ws), logs.Keys, logs) && Rising(ws)
  {
    ws := [];
    var left := logs.Keys;
    ghost var done: set<nat> := {};
    while left != {}
      invariant left + done == logs.Keys && left !! done
      invariant forall i, j :: i in done && j in left ==> i <= j
      invariant Rebuilt(Replay(ws), done, logs) && IdsRise(ws)
      invariant forall j :: j in left ==> IdsUpTo(ws, j)
      decreases left
    {
      var id := Least(left);
      RebuiltStep(ws, done, logs, id);
      RiseStep(ws, logs[id], id);
      ws := ws + WritesOf(logs[id], id);
      left, done := left - {id}, done + {id};
    }
    assert done == logs.Keys;
  }
}
