/** The multi-version skip list that backs a memtable. */
module SkipLists {
  import opened Keys
  import opened Versions
  import opened SkipNet
  import opened SkipUnlink

  /** Bytes a version takes: key, value and an eight-byte id. */
  function EntryBytes(e: Entry): nat {
    |e.key| + |e.value| + 8
  }

  function Bytes(es: seq<Entry>): nat {
    if es == [] then 0 else EntryBytes(es[0]) + Bytes(es[1..])
  }

  /** The versions held by a chain of nodes. */
  ghost function Listing(chain: seq<Node>): (es: seq<Entry>)
    reads chain`value
    ensures |es| == |chain|
    ensures forall i :: 0 <= i < |chain| ==> es[i] == Entry(chain[i].key, chain[i].value, chain[i].tid)
  {
    if chain == [] then [] else [Entry(chain[0].key, chain[0].value, chain[0].tid)] + Listing(chain[1..])
  }

  /** What the predicate search returns; the last case is its internal error. */
  datatype Range = NoMatch | Matches(first: Node, end: Node?) | InvalidDirection

  class SkipList {
    var head: Node
    const maxLevel: nat
    var currentLevel: nat
    var sizeBytes: int
    ghost var nodes: set<Node>
    ghost var chains: seq<seq<Node>>

    /** The pointers of the head and of every listed node. */
    ghost function Links(): Net
      reads `nodes, nodes`forward, nodes`backward
    {
      map x | x in nodes :: Tower(x.forward, x.backward)
    }

    /** The listed versions in order. */
    ghost function Contents(): (es: seq<Entry>)
      requires |chains| > 0
      reads `chains, chains[0]`value
    {
      Listing(chains[0])
    }

    /** The pointers are those of a skip list over the listed nodes. */
    ghost predicate Linked()
      reads `head, `currentLevel, `nodes, `chains, nodes`forward, nodes`backward
    {
      && |chains| == maxLevel && 1 <= currentLevel <= maxLevel
      && nodes == {head} + (set x | x in chains[0])
      && Structure(Links(), head, chains, currentLevel)
    }

    ghost predicate Valid()
      reads this, nodes
    {
      Linked() && sizeBytes == Bytes(Contents())
    }

    /** The same, framed by the nodes of the list alone. */
    ghost function Listed(): seq<Entry>
      requires Valid()
      reads this, nodes
    {
      Contents()
    }

    constructor (maxLevel: nat)
      requires maxLevel > 0
      ensures Valid() && fresh(nodes) && Contents() == [] && this.maxLevel == maxLevel && currentLevel == 1
    {
      this.maxLevel := maxLevel;
      currentLevel := 1;
      sizeBytes := 0;
      head := new Node([], [], 0, maxLevel);
      chains := seq(maxLevel, _ => []);
      new;
      nodes := {head};
      EmptyStructure(Links(), head, chains, 1);
    }

    /** On level i the search for b stops after p nodes, at x. */
    ghost predicate StopAt(i: nat, b: Bound, p: nat, x: Node)
      reads this
    {
      i < |chains| && SplitAt(chains[i], b, p) && x == ([head] + chains[i])[p]
    }

    /** From level top - 1 down, moves right as long as the next node is passed by the bound. */
    method Descend(b: Bound, top: nat) returns (update: seq<Node>, ghost ps: seq<nat>)
      requires Valid() && currentLevel <= top <= maxLevel
      ensures |update| == |ps| == top
      ensures forall i :: 0 <= i < top ==> StopAt(i, b, ps[i], update[i])
    {
      hide Below, Ascending, Structure, SplitAt, StopAt;
      var current := head;
      update, ps := seq(top, _ => current), seq(top, _ => 0);
      ghost var p: nat := 0;
      var i := top;
      while i > 0
        invariant 0 <= i <= top && |update| == |ps| == top
        invariant p > 0 ==> i < maxLevel && p <= |chains[i]| && current == chains[i][p - 1] && Below(current, b)
        invariant p == 0 ==> current == head
        invariant forall k :: i <= k < top ==> StopAt(k, b, ps[k], update[k])
      {
        i := i - 1;
        p := LowerPosition(Links(), head, chains, currentLevel, i, current, p);
        current, p := MoveRight(b, i, current, p);
        update, ps := update[i := current], ps[i := p];
      }
    }

    /** The inner loop of a search: along level i. */
    method MoveRight(b: Bound, i: nat, from: Node, ghost p0: nat) returns (current: Node, ghost p: nat)
      requires
        && Valid() && i < maxLevel && p0 <= |chains[i]| && from == ([head] + chains[i])[p0]
        && (p0 > 0 ==> Below(from, b))
      ensures
        && p <= |chains[i]| && current == ([head] + chains[i])[p] && (p > 0 ==> Below(current, b))
        && StopAt(i, b, p, current)
    {
      hide Below, Ascending, Structure;
      current, p := from, p0;
      StepRight(Links(), head, chains, currentLevel, i, p);
      while current.forward[i] != null && Below(current.forward[i], b)
        invariant p <= |chains[i]| && current == ([head] + chains[i])[p] && (p > 0 ==> Below(current, b))
        invariant i < |current.forward| && current.forward[i] == (if p < |chains[i]| then chains[i][p] else null)
        decreases |chains[i]| - p
      {
        current := current.forward[i];
        p := p + 1;
        StepRight(Links(), head, chains, currentLevel, i, p);
      }
      SplitHere(chains[i], b, p);
    }

    /** Node x stands at position q of the bottom level, or the level ends there. */
    ghost predicate StandsAt(x: Node?, q: nat)
      reads this
    {
      |chains| > 0 && q <= |chains[0]| && x == (if q < |chains[0]| then chains[0][q] else null)
    }

    /** The newest version of key visible at tid: tower descent, then along the bottom level. */
    method Get(key: Key, tid: nat) returns (r: Node?)
      requires Valid()
      ensures r != null ==> r in chains[0]
      ensures Lookup(Contents(), key, tid) == (if r == null then None else Some(Entry(r.key, r.value, r.tid)))
    {
      hide Structure, Below, Lookup, Scanning, Ascending;
      var update, ps := Descend(ByKey(key), currentLevel);
      ghost var q: nat := ps[0];
      StepRight(Links(), head, chains, currentLevel, 0, q);
      ScanStart(chains[0], Contents(), key, tid, q);
      var current := update[0].forward[0];
      if tid == 0 {
        if current != null && current.key == key {
          ScanHit(Contents(), key, tid, q);
          return current;
        }
        ScanEnd(Contents(), key, tid, q);
        return null;
      } else {
        r := SkipInvisible(current, key, tid, q);
      }
    }

    /** The loop of get() that passes over versions newer than tid. */
    method SkipInvisible(from: Node?, key: Key, tid: nat, ghost q0: nat) returns (current: Node?)
      requires Valid() && tid != 0 && StandsAt(from, q0) && Scanning(Contents(), key, tid, q0)
      ensures current != null ==> current in chains[0]
      ensures Lookup(Contents(), key, tid) == (if current == null then None
        else Some(Entry(current.key, current.value, current.tid)))
    {
      hide Structure, Lookup, Scanning, Listing;
      current := from;
      ghost var q := q0;
      while current != null && current.key == key
        invariant StandsAt(current, q) && Scanning(Contents(), key, tid, q)
        decreases |chains[0]| - q
      {
        if current.tid <= tid {
          ScanHit(Contents(), key, tid, q);
          return current;
        }
        ScanMiss(Contents(), key, tid, q);
        q := q + 1;
        StepRight(Links(), head, chains, currentLevel, 0, q);
        current := current.forward[0];
      }
      ScanEnd(Contents(), key, tid, q);
      return null;
    }

    method SetForward(x: Node, i: nat, y: Node?)
      requires x in nodes && i < |x.forward|
      modifies x`forward
      ensures Links() == SetFwd(old(Links()), x, i, y)
    {
      x.forward := x.forward[i := y];
    }

    method SetBackward(x: Node, i: nat, y: Node?)
      requires x in nodes && i < |x.backward|
      modifies x`backward
      ensures Links() == SetBwd(old(Links()), x, i, y)
    {
      x.backward := x.backward[i := y];
    }

    /** The four pointer writes that link x after pred on level i. */
    method SpliceNode(i: nat, pred: Node, x: Node)
      requires CanSplice(Links(), i, pred, x)
      modifies nodes`forward, nodes`backward
      ensures Links() == Splice(old(Links()), i, pred, x)
    {
      SetForward(x, i, pred.forward[i]);
      var next := x.forward[i];
      if next != null {
        SetBackward(next, i, x);
      }
      SetForward(pred, i, x);
      SetBackward(x, i, pred);
    }

    /** Inserts a version, or overwrites the value of the same version.  `draw` is the random
        tower height and `bits` the random bits deciding how far up the new node is linked. */
    method Put(key: Key, value: Value, tid: nat, draw: nat, bits: seq<bool>)
      requires Valid() && 1 <= draw <= maxLevel && |bits| >= maxLevel
      modifies this, nodes
      ensures Valid() && fresh(nodes - old(nodes))
      ensures Contents() == PutSorted(old(Contents()), Entry(key, value, tid))
      ensures currentLevel == if nodes == old(nodes) then old(currentLevel)
        else if draw > old(currentLevel) then draw else old(currentLevel)
    {
      hide Structure, PutSorted, Listing, Bytes, StopAt, Links;
      ghost var e := Entry(key, value, tid);
      var newLevel := if draw > currentLevel then draw else currentLevel;
      var x := new Node(key, value, tid, newLevel);
      var update, current, ps := Locate(key, tid, e);
      if current != null && current.key == key && current.tid == tid {
        Overwrite(current, value, ps[0]);
      } else {
        InsertVersion(x, newLevel, bits, update, ps);
      }
    }

    /** The branch of put() for a version that is not there yet. */
    method InsertVersion(x: Node, newLevel: nat, bits: seq<bool>, update: seq<Node>, ghost ps: seq<nat>)
      requires Valid() && currentLevel <= newLevel <= maxLevel && |bits| >= maxLevel
      requires x !in nodes && x.forward == x.backward == Nulls(newLevel)
      requires |update| == |ps| == currentLevel && ps[0] <= |chains[0]|
      requires forall i :: 0 <= i < currentLevel ==> StopAt(i, ByVersion(x.key, x.tid), ps[i], update[i])
      requires ps[0] < |chains[0]| ==> chains[0][ps[0]].key != x.key || chains[0][ps[0]].tid != x.tid
      modifies this, nodes`forward, nodes`backward, x`forward, x`backward
      ensures Valid() && nodes == old(nodes) + {x} && currentLevel == newLevel
      ensures Contents() == old(Contents())[..ps[0]] + [Entry(x.key, x.value, x.tid)] + old(Contents())[ps[0]..]
    {
      hide Structure, Listing, Bytes, Insert, StopAt, Links;
      ghost var es := Contents();
      InsertNew(x, newLevel, bits, update, ps);
      ListingInsert(old(chains[0]), ps[0], x);
      BytesInsert(es, ps[0], Entry(x.key, x.value, x.tid));
    }

    /** The search of put(): the predecessors on every level and the first node not before the version. */
    method Locate(key: Key, tid: nat, ghost e: Entry) returns (update: seq<Node>, current: Node?, ghost ps: seq<nat>)
      requires Valid() && e.key == key && e.tid == tid
      ensures |update| == |ps| == currentLevel && ps[0] <= |chains[0]| && StandsAt(current, ps[0])
      ensures forall i :: 0 <= i < currentLevel ==> StopAt(i, ByVersion(key, tid), ps[i], update[i])
      ensures PutSorted(Contents(), e) ==
        (if current != null && current.key == key && current.tid == tid then Contents()[ps[0] := e]
         else Contents()[..ps[0]] + [e] + Contents()[ps[0]..])
    {
      hide Structure, Below, PutSorted;
      update, ps := Descend(ByVersion(key, tid), currentLevel);
      StepRight(Links(), head, chains, currentLevel, 0, ps[0]);
      SplitPut(chains[0], Contents(), e, ps[0]);
      current := update[0].forward[0];
    }

    /** The branch of put() for a version that is there already. */
    method Overwrite(x: Node, value: Value, ghost p: nat)
      requires Valid() && p < |chains[0]| && x == chains[0][p]
      modifies `sizeBytes, x`value
      ensures Valid() && Contents() == old(Contents())[p := Entry(x.key, value, x.tid)]
    {
      hide Structure, Bytes;
      OnlyPosition(Links(), head, chains, currentLevel, p);
      ghost var es, e := Contents(), Entry(x.key, value, x.tid);
      BytesUpdate(es, p, e);
      sizeBytes := sizeBytes + |value| - |x.value|;
      x.value := value;
      assert Contents() == es[p := e];
    }

    /** The rest of put() for a version that is not there yet. */
    method InsertNew(x: Node, newLevel: nat, bits: seq<bool>, update: seq<Node>, ghost ps: seq<nat>)
      requires Valid() && currentLevel <= newLevel <= maxLevel && |bits| >= maxLevel
      requires x !in nodes && x.forward == x.backward == Nulls(newLevel)
      requires |update| == |ps| == currentLevel && ps[0] <= |chains[0]|
      requires forall i :: 0 <= i < currentLevel ==> StopAt(i, ByVersion(x.key, x.tid), ps[i], update[i])
      requires ps[0] < |chains[0]| ==> chains[0][ps[0]].key != x.key || chains[0][ps[0]].tid != x.tid
      modifies this, nodes`forward, nodes`backward, x`forward, x`backward
      ensures Linked() && nodes == old(nodes) + {x} && chains[0] == Insert(old(chains[0]), ps[0], x)
      ensures head == old(head) && currentLevel == newLevel && sizeBytes == old(sizeBytes) + |x.key| + |x.value| + 8
    {
      hide Structure, Below, Rising, Insert, LinkHeight, Contents, Bytes, Listing, Links;
      var raised := newLevel > currentLevel;
      var h := head;
      var preds := update + seq(newLevel - currentLevel, _ => h);
      ghost var at, c0 := ps + seq(newLevel - currentLevel, _ => 0), chains;
      assert forall k :: 0 <= k < newLevel ==> preds[k] == ([h] + c0[k])[at[k]] by {
        assert forall k :: 0 <= k < currentLevel ==> StopAt(k, ByVersion(x.key, x.tid), ps[k], update[k]);
      }
      AddNode(x, newLevel, ps, at);
      ghost var _ := LinkUp(x, raised, bits, preds, at, c0);
      NodesInsert(c0[0], at[0], x);
    }

    /** The new node belongs to the list, but is not linked on any level yet. */
    method AddNode(x: Node, newLevel: nat, ghost ps: seq<nat>, ghost at: seq<nat>)
      requires Valid() && currentLevel <= newLevel <= maxLevel
      requires x !in nodes && x.forward == x.backward == Nulls(newLevel)
      requires |ps| == currentLevel && at == ps + seq(newLevel - currentLevel, _ => 0)
      requires forall i :: 0 <= i < currentLevel ==> i < |chains| && SplitAt(chains[i], ByVersion(x.key, x.tid), ps[i])
      requires ps[0] <= |chains[0]|
      requires ps[0] < |chains[0]| ==> chains[0][ps[0]].key != x.key || chains[0][ps[0]].tid != x.tid
      modifies `sizeBytes, `nodes, `currentLevel
      ensures
        && nodes == old(nodes) + {x} && currentLevel == newLevel
        && sizeBytes == old(sizeBytes) + |x.key| + |x.value| + 8
      ensures Rising(Links(), head, chains, chains, newLevel, x, at, 0)
    {
      hide Structure, Below, Rising, Insert, Contents, Bytes, Listing;
      RisingStart(Links(), head, chains, currentLevel, x, newLevel, ps, at);
      ghost var n1 := Links()[x := Tower(Nulls(newLevel), Nulls(newLevel))];
      sizeBytes := sizeBytes + |x.key| + |x.value| + 8;
      nodes := nodes + {x};
      currentLevel := newLevel;
      assert Links() == n1;
    }

    /** The loop of put() that links the new node level by level until a random bit is clear. */
    method LinkUp(x: Node, raised: bool, bits: seq<bool>, preds: seq<Node>, ghost at: seq<nat>,
        ghost c0: seq<seq<Node>>) returns (ghost h: nat)
      requires Rising(Links(), head, chains, c0, currentLevel, x, at, 0) && chains == c0
      requires |bits| >= currentLevel && |preds| == currentLevel
      requires forall k :: 0 <= k < currentLevel ==> preds[k] == ([head] + c0[k])[at[k]]
      modifies `chains, nodes`forward, nodes`backward
      ensures Structure(Links(), head, chains, currentLevel) && |chains| == |c0| && chains[0] == Insert(c0[0], at[0], x)
      ensures
        && h == LinkHeight(raised, bits, currentLevel, 0) && 0 < h <= |c0| && x in chains[h - 1]
        && forall k :: h <= k < |c0| ==> chains[k] == c0[k]
    {
      hide Structure, Rising, CanSplice, Splice, Insert, Links, Fits;
      var i := 0;
      RisingFacts(Links(), head, chains, c0, currentLevel, x, at, 0);
      while i < currentLevel && (i == 0 || raised || bits[i])
        invariant 0 <= i <= currentLevel
        invariant Rising(Links(), head, chains, c0, currentLevel, x, at, i)
        invariant LinkHeight(raised, bits, currentLevel, 0) == LinkHeight(raised, bits, currentLevel, i)
        decreases currentLevel - i
      {
        RisingStep(Links(), head, chains, c0, currentLevel, x, at, i);
        SpliceNode(i, preds[i], x);
        chains := chains[i := Insert(chains[i], at[i], x)];
        i := i + 1;
      }
      RisingFacts(Links(), head, chains, c0, currentLevel, x, at, i);
      h := i;
    }

    /** Takes out the newest version of key, if there is one. */
    method Remove(key: Key)
      requires Valid()
      modifies this, nodes
      ensures Valid() && nodes <= old(nodes)
      ensures Contents() == DropNewest(old(Contents()), key)
      ensures nodes != old(nodes) ==>
        1 <= currentLevel <= |chains| && (currentLevel == 1 || chains[currentLevel - 1] != [])
    {
      hide Structure, Target, DropNewest, Bytes, Listing, Without;
      ghost var es := Contents();
      var update, current, ps := LocateKey(key);
      if current != null && current.key == key {
        TakeOut(current, update, ps);
        LowerLevel();
        ListingWithout(old(chains[0]), ps[0]);
        BytesWithout(es, ps[0]);
      }
    }

    /** The pointer and size updates of remove(). */
    method TakeOut(x: Node, update: seq<Node>, ghost ps: seq<nat>)
      requires Linked() && Target(Links(), head, chains, currentLevel, x, update, ps)
      modifies `sizeBytes, `chains, `nodes, nodes`forward, nodes`backward
      ensures |ps| > 0 && ps[0] < |old(chains[0])| && old(chains[0])[ps[0]] == x
      ensures Linked() && nodes == old(nodes) - {x} && chains[0] == Without(old(chains[0]), ps[0])
      ensures sizeBytes == old(sizeBytes) - (|x.key| + |x.value| + 8)
    {
      hide Structure, Target, Bypassed, Without, Height;
      ghost var before := Links();
      ghost var h := BypassForward(x, update, ps);
      BypassBackward(x, update, ps, h, before);
      sizeBytes := sizeBytes - (|x.key| + |x.value| + 8);
      Unlist(x, update, ps, h, before);
    }

    /** The search of remove(), from the topmost level. */
    method LocateKey(key: Key) returns (update: seq<Node>, current: Node?, ghost ps: seq<nat>)
      requires Valid()
      ensures |ps| > 0 && StandsAt(current, ps[0])
      ensures current != null && current.key == key ==> Target(Links(), head, chains, currentLevel, current, update, ps)
      ensures DropNewest(Contents(), key) ==
        (if current != null && current.key == key then Without(Contents(), ps[0]) else Contents())
    {
      hide Structure, Below, Listing, DropNewest, Without;
      update, ps := Descend(ByKey(key), maxLevel);
      StepRight(Links(), head, chains, currentLevel, 0, ps[0]);
      DropSplit(chains[0], Contents(), key, ps[0]);
      current := update[0].forward[0];
    }

    /** The loop of remove() over the forward pointers. */
    method BypassForward(x: Node, update: seq<Node>, ghost ps: seq<nat>) returns (ghost h: nat)
      requires Target(Links(), head, chains, currentLevel, x, update, ps)
      modifies nodes`forward
      ensures Height(chains, x, h) && Bypassed(old(Links()), Links(), update, x, h, 0)
    {
      hide Structure, Target, Bypassed;
      BypassNone(Links(), head, chains, currentLevel, x, update, ps);
      var i := 0;
      while i < currentLevel
        invariant 0 <= i <= currentLevel
        invariant Bypassed(old(Links()), Links(), update, x, i, 0)
        invariant forall k :: 0 <= k < i ==> x in chains[k]
      {
        ForwardStep(old(Links()), Links(), head, chains, currentLevel, x, update, ps, i);
        if update[i].forward[i] != x {
          break;
        }
        SetForward(update[i], i, x.forward[i]);
        i := i + 1;
      }
      h := i;
      StopHeight(old(Links()), head, chains, currentLevel, x, update, ps, h);
    }

    /** The loop of remove() over the backward pointers. */
    method BypassBackward(x: Node, update: seq<Node>, ghost ps: seq<nat>, ghost h: nat, ghost before: Net)
      requires Target(before, head, chains, currentLevel, x, update, ps) && Bypassed(before, Links(), update, x, h, 0)
      modifies nodes`backward
      ensures x in before && Bypassed(before, Links(), update, x, h, |before[x].fwd|)
    {
      hide Structure, Target, Bypassed;
      TargetFacts(before, Links(), head, chains, currentLevel, x, update, ps, h, 0);
      var i := 0;
      while i < |x.backward| && i < currentLevel
        invariant 0 <= i <= |before[x].fwd| && x in nodes && |x.backward| == |before[x].fwd|
        invariant Bypassed(before, Links(), update, x, h, i)
      {
        BackwardStep(before, Links(), head, chains, currentLevel, x, update, ps, h, i);
        var next := x.forward[i];
        if next != null {
          SetBackward(next, i, update[i]);
        }
        i := i + 1;
        TargetFacts(before, Links(), head, chains, currentLevel, x, update, ps, h, i);
      }
      if i < |before[x].fwd| {
        BackwardRest(before, Links(), head, chains, currentLevel, x, update, ps, h, i);
      }
    }

    /** Forgets the node that nothing points at any more. */
    ghost method Unlist(x: Node, update: seq<Node>, ps: seq<nat>, h: nat, before: Net)
      requires Target(before, head, chains, currentLevel, x, update, ps) && Height(chains, x, h)
      requires |chains| == maxLevel && nodes == {head} + (set y | y in chains[0])
      requires Bypassed(before, Links(), update, x, h, |before[x].fwd|)
      modifies `nodes, `chains
      ensures |ps| == |old(chains)| && ps[0] < |old(chains[0])| && old(chains[0])[ps[0]] == x
      ensures Linked() && nodes == old(nodes) - {x} && chains[0] == Without(old(chains[0]), ps[0])
    {
      hide Structure, Target, Bypassed, Height;
      BypassDone(before, Links(), head, chains, currentLevel, x, update, ps, h);
      ghost var left := Links() - {x};
      chains := Cut(chains, ps, h);
      nodes := nodes - {x};
      assert Links() == left;
    }

    /** The loop of remove() that gives up empty top levels. */
    method LowerLevel()
      requires Linked()
      modifies `currentLevel
      ensures
        && Linked() && 1 <= currentLevel <= old(currentLevel) && (currentLevel == 1 || chains[currentLevel - 1] != [])
    {
      hide Structure;
      StepRight(Links(), head, chains, currentLevel, currentLevel - 1, 0);
      while currentLevel > 1 && head.forward[currentLevel - 1] == null
        invariant Linked() && 1 <= currentLevel <= |head.forward| && currentLevel <= old(currentLevel)
      {
        LowerCurrent(Links(), head, chains, currentLevel);
        currentLevel := currentLevel - 1;
      }
      StepRight(Links(), head, chains, currentLevel, currentLevel - 1, 0);
    }

    /** All versions in order, read off the bottom level. */
    method Flush() returns (data: seq<Entry>)
      requires Valid()
      ensures data == Contents()
    {
      hide Structure, Listing, Bytes, Ascending;
      data := [];
      StepRight(Links(), head, chains, currentLevel, 0, 0);
      var node := head.forward[0];
      while node != null
        invariant |data| <= |chains[0]| && data == Contents()[..|data|] && StandsAt(node, |data|)
        decreases |chains[0]| - |data|
      {
        StepRight(Links(), head, chains, currentLevel, 0, |data| + 1);
        data := data + [Entry(node.key, node.value, node.tid)];
        node := node.forward[0];
      }
    }

    /** Drops everything.  The current level stays as it is. */
    method Clear()
      requires Valid()
      modifies this
      ensures Valid() && fresh(nodes) && Contents() == [] && currentLevel == old(currentLevel)
    {
      head := new Node([], [], 0, maxLevel);
      sizeBytes := 0;
      chains := seq(maxLevel, _ => []);
      nodes := {head};
      EmptyStructure(Links(), head, chains, currentLevel);
    }

    /** The first node at or after the prefix. */
    method BeginPrefix(prefix: Key) returns (r: Node?, ghost b: nat)
      requires Valid()
      ensures StandsAt(r, b) && SplitAt(chains[0], ByKey(prefix), b)
    {
      hide Structure, Below;
      var update, ps := Descend(ByKey(prefix), currentLevel);
      b := ps[0];
      StepRight(Links(), head, chains, currentLevel, 0, b);
      r := update[0].forward[0];
    }

    /** The first node after all keys with the prefix: together with the first node at or after
        the prefix it delimits exactly the keys that start with it. */
    method EndPrefix(prefix: Key) returns (r: Node?, ghost b: nat, ghost e: nat)
      requires Valid()
      ensures StandsAt(r, e) && SplitAt(chains[0], ByKey(prefix), b)
      ensures forall i :: 0 <= i < |chains[0]| ==> (StartsWith(Contents()[i].key, prefix) <==> b <= i < e)
    {
      hide Structure, Below, SplitAt, Listing, StartsWith;
      r, b := BeginPrefix(prefix);
      e := b;
      while r != null && StartsWith(r.key, prefix)
        invariant StandsAt(r, e) && b <= e && forall j :: b <= j < e ==> StartsWith(chains[0][j].key, prefix)
        decreases |chains[0]| - e
      {
        e := e + 1;
        StepRight(Links(), head, chains, currentLevel, 0, e);
        r := r.forward[0];
      }
      StepRight(Links(), head, chains, currentLevel, 0, e);
      PrefixRun(chains[0], prefix, b, e);
    }

    /** Moves right on level i while the direction is positive. */
    method SlideRight(dir: Key -> int, i: nat, from: Node, ghost p: nat) returns (at: Node, ghost q: nat)
      requires
        && Valid() && i < maxLevel && p <= |chains[i]| && from == ([head] + chains[i])[p]
        && (p > 0 ==> dir(from.key) > 0)
      ensures q <= |chains[i]| && at == ([head] + chains[i])[q] && (q > 0 ==> dir(at.key) > 0)
      ensures i < |at.forward| && at.forward[i] == (if q < |chains[i]| then chains[i][q] else null)
      ensures q < |chains[i]| ==> dir(chains[i][q].key) <= 0
    {
      hide Structure, Below, Contents, Bytes, Listing;
      at, q := from, p;
      StepRight(Links(), head, chains, currentLevel, i, q);
      while at.forward[i] != null && dir(at.forward[i].key) > 0
        invariant q <= |chains[i]| && at == ([head] + chains[i])[q] && (q > 0 ==> dir(at.key) > 0)
        invariant i < |at.forward| && at.forward[i] == (if q < |chains[i]| then chains[i][q] else null)
        decreases |chains[i]| - q
      {
        at := at.forward[i];
        q := q + 1;
        StepRight(Links(), head, chains, currentLevel, i, q);
      }
    }

    /** Descends to some node with direction 0, moving right while the direction is positive. */
    method SeekMatch(dir: Key -> int) returns (current: Node?, ghost q: nat)
      requires Valid()
      ensures current != null ==> q < |chains[0]| && current == chains[0][q] && dir(current.key) == 0
      ensures current == null ==>
        q <= |chains[0]| && (q > 0 ==> dir(chains[0][q - 1].key) > 0) && (q < |chains[0]| ==> dir(chains[0][q].key) < 0)
    {
      hide Structure, Below, Contents, Bytes, Listing;
      var at := head;
      q := 0;
      var i := currentLevel;
      while i > 0
        invariant 0 <= i <= currentLevel
        invariant q == 0 ==> at == head
        invariant q > 0 ==> i < maxLevel && q <= |chains[i]| && at == chains[i][q - 1] && dir(at.key) > 0
        invariant i == 0 ==> q < |chains[0]| ==> dir(chains[0][q].key) < 0
      {
        i := i - 1;
        q := LowerPosition(Links(), head, chains, currentLevel, i, at, q);
        at, q := SlideRight(dir, i, at, q);
        if at.forward[i] != null && dir(at.forward[i].key) == 0 {
          current := at.forward[i];
          InLower(Links(), head, chains, currentLevel, i, 0, current);
          q :| 0 <= q < |chains[0]| && chains[0][q] == current;
          return;
        }
      }
      current := null;
    }

    /** Back from a match along every level to the first match. */
    method WalkBack(dir: Key -> int, from: Node, ghost q: nat) returns (ok: bool, current: Node, ghost b: nat)
      requires Valid() && q < |chains[0]| && from == chains[0][q] && dir(from.key) == 0
      ensures MonotoneOn(chains[0], dir) ==> ok
      ensures ok ==>
        b <= q && current == chains[0][b] && dir(current.key) == 0 && (b > 0 ==> dir(chains[0][b - 1].key) > 0)
    {
      hide Structure, Below;
      current, b, ok := from, q, true;
      TowerFacts(Links(), head, chains, currentLevel, q);
      var i := |current.backward|;
      while i > 0
        invariant 0 <= i <= |current.backward| && b <= q && current == chains[0][b] && dir(current.key) == 0
        invariant i == 0 ==> b > 0 ==> dir(chains[0][b - 1].key) > 0
      {
        i := i - 1;
        ghost var b' := BackLink(Links(), head, chains, currentLevel, i, b);
        while current.backward[i] != null && current.backward[i] != head && dir(current.backward[i].key) == 0
          invariant i < |current.backward| && b <= q && current == chains[0][b] && dir(current.key) == 0
          invariant BackAt(Links(), head, chains[0], i, b, b')
          decreases b
        {
          current, b := current.backward[i], b';
          b' := BackLink(Links(), head, chains, currentLevel, i, b);
        }
        if current.backward[i] != null && current.backward[i] != head && dir(current.backward[i].key) < 0 {
          ok := false;
          return;
        }
      }
    }

    /** Forward from a match along every level to the last match. */
    method WalkForward(dir: Key -> int, from: Node, ghost q: nat) returns (ok: bool, current: Node, ghost e: nat)
      requires Valid() && q < |chains[0]| && from == chains[0][q] && dir(from.key) == 0
      ensures MonotoneOn(chains[0], dir) ==> ok
      ensures ok ==>
        && q <= e < |chains[0]| && current == chains[0][e] && dir(current.key) == 0
        && (e + 1 < |chains[0]| ==> dir(chains[0][e + 1].key) < 0)
    {
      hide Structure, Below;
      current, e, ok := from, q, true;
      TowerFacts(Links(), head, chains, currentLevel, q);
      var i := |current.forward|;
      while i > 0
        invariant
          && 0 <= i <= |current.forward| && q <= e < |chains[0]| && current == chains[0][e] && dir(current.key) == 0
        invariant i == 0 ==> e + 1 < |chains[0]| ==> dir(chains[0][e + 1].key) < 0
      {
        i := i - 1;
        ghost var e' := AheadLink(Links(), head, chains, currentLevel, i, e);
        while current.forward[i] != null && dir(current.forward[i].key) == 0
          invariant i < |current.forward| && q <= e < |chains[0]| && current == chains[0][e] && dir(current.key) == 0
          invariant AheadAt(Links(), chains[0], i, e, e')
          decreases |chains[0]| - e
        {
          current, e := current.forward[i], e';
          e' := AheadLink(Links(), head, chains, currentLevel, i, e);
        }
        if current.forward[i] != null && dir(current.forward[i].key) > 0 {
          ok := false;
          return;
        }
      }
    }

    /** The nodes whose key has direction 0: first one, and the one after the last. */
    method MatchRange(dir: Key -> int) returns (r: Range, ghost b: nat, ghost e: nat)
      requires Valid()
      ensures MonotoneOn(chains[0], dir) ==> !r.InvalidDirection?
      ensures MonotoneOn(chains[0], dir) && r.NoMatch? ==> RunOf(chains[0], dir, 0, 0)
      ensures r.Matches? ==> b < e && StandsAt(r.first, b) && StandsAt(r.end, e)
      ensures MonotoneOn(chains[0], dir) && r.Matches? ==> RunOf(chains[0], dir, b, e)
    {
      hide Structure, Listing, MonotoneOn, RunOf, Bytes, Contents, NodeBefore, Ascending;
      var current, q := SeekMatch(dir);
      b, e := q, q;
      if current == null {
        NoMatches(chains[0], dir, q);
        return NoMatch, b, e;
      }
      var ok, first;
      ok, first, b := WalkBack(dir, current, q);
      if !ok {
        return InvalidDirection, b, e;
      }
      var last;
      ok, last, e := WalkForward(dir, current, q);
      if !ok {
        return InvalidDirection, b, e;
      }
      MatchRun(chains[0], dir, b, q, e);
      e := e + 1;
      StepRight(Links(), head, chains, currentLevel, 0, e);
      return Matches(first, last.forward[0]), b, e;
    }
  }

  /** The versions without the newest one of key. */
  function DropNewest(es: seq<Entry>, key: Key): seq<Entry> {
    if es == [] then []
    else if es[0].key == key then es[1..]
    else [es[0]] + DropNewest(es[1..], key)
  }

  /** As a store, exactly the newest version of the key is gone. */
  lemma {:induction false} DropNewestStore(es: seq<Entry>, key: Key)
    requires Sorted(es)
    ensures match Lookup(es, key, 0)
      case None => DropNewest(es, key) == es
      case Some(e) => StoreOf(DropNewest(es, key)) == StoreOf(es) - {(key, e.tid)}
  {
    if es != [] {
      var tl := es[1..];
      DropNewestStore(tl, key);
      TailLacks(es);
      assert ([es[0]] + DropNewest(tl, key))[1..] == DropNewest(tl, key);
      hide Sorted;
    }
  }

  /** A sorted table has no version twice. */
  lemma TailLacks(es: seq<Entry>)
    requires Sorted(es) && es != []
    ensures (es[0].key, es[0].tid) !in StoreOf(es[1..])
  {
    var tl, e := es[1..], es[0];
    StoreHas(tl, e.key, e.tid);
    forall j | 0 <= j < |tl|
      ensures !(tl[j].key == e.key && tl[j].tid == e.tid)
    {
      assert Before(es[0], es[j + 1]);
      BeforeTotal(es[0], es[j + 1]);
    }
  }

  /** Directions along a chain: positive, then zero, then negative. */
  ghost predicate MonotoneOn(chain: seq<Node>, dir: Key -> int) {
    forall i, j :: 0 <= i < j < |chain| ==> Downhill(dir, chain[i].key, chain[j].key)
  }

  /** A direction that is monotone in the key is monotone along a chain. */
  lemma MonotoneAlong(chain: seq<Node>, dir: Key -> int)
    requires Ascending(chain) && forall a, b :: Less(a, b) ==> Downhill(dir, a, b)
    ensures MonotoneOn(chain, dir)
  {
    forall i, j | 0 <= i < j < |chain|
      ensures Downhill(dir, chain[i].key, chain[j].key)
    {
      assert NodeBefore(chain[i], chain[j]);
    }
  }

  /** Prefix match is such a direction, and zero means the prefix matches. */
  lemma PrefixMonotone(chain: seq<Node>, p: Key)
    requires Ascending(chain)
    ensures MonotoneOn(chain, k => PrefixDirection(p, k))
    ensures forall k :: PrefixDirection(p, k) == 0 <==> StartsWith(k, p)
  {
    var dir := k => PrefixDirection(p, k);
    forall a, b | Less(a, b)
      ensures Downhill(dir, a, b)
    {
      PrefixSteps(p, a, b);
    }
    MonotoneAlong(chain, dir);
    forall k
      ensures PrefixDirection(p, k) == 0 <==> StartsWith(k, p)
    {
      PrefixDirectionMeaning(p, k);
    }
  }

  /** The matching keys are exactly those at positions b up to e. */
  ghost predicate RunOf(chain: seq<Node>, dir: Key -> int, b: nat, e: nat) {
    forall i :: 0 <= i < |chain| ==> (dir(chain[i].key) == 0 <==> b <= i < e)
  }

  /** On level i the node at position b points back at the head, at nothing, or at position b'. */
  ghost predicate BackAt(net: Net, head: Node, chain: seq<Node>, i: nat, b: nat, b': nat) {
    && b < |chain| && chain[b] in net && i < |net[chain[b]].bwd|
    && var y := net[chain[b]].bwd[i];
      && (y == null || y == head || (b' < b && y == chain[b'] && y in net && i < |net[y].bwd|))
      && (i == 0 ==> if b == 0 then y == head else y == chain[b - 1] && y != head)
  }

  lemma BackLink(net: Net, head: Node, chains: seq<seq<Node>>, cur: nat, i: nat, b: nat) returns (b': nat)
    requires Structure(net, head, chains, cur) && b < |chains[0]| && chains[0][b] in net && i < |net[chains[0][b]].bwd|
    ensures BackAt(net, head, chains[0], i, b, b')
  {
    var x := chains[0][b];
    assert TowerOk(net, chains, x) && ChainOk(net, head, chains, cur, 0) && ChainOk(net, head, chains, cur, i);
    assert LinkedAt(net, [head] + chains[0], 0, b + 1);
    b' := 0;
    if x in chains[i] {
      var j :| 0 <= j < |chains[i]| && chains[i][j] == x;
      var full := [head] + chains[i];
      assert LinkedAt(net, full, i, j + 1) && LinkedAt(net, full, i, j);
      if j > 0 {
        var y := chains[i][j - 1];
        InLower(net, head, chains, cur, i, 0, y);
        b' :| 0 <= b' < |chains[0]| && chains[0][b'] == y;
        Earlier(chains[0], y, x, b', b);
      }
    }
  }

  /** On level i the node at position e points forward at nothing or at position e'. */
  ghost predicate AheadAt(net: Net, chain: seq<Node>, i: nat, e: nat, e': nat) {
    && e < |chain| && chain[e] in net && i < |net[chain[e]].fwd|
    && var y := net[chain[e]].fwd[i];
      && (y == null || (e < e' < |chain| && y == chain[e'] && y in net && i < |net[y].fwd|))
      && (i == 0 ==> y == if e + 1 == |chain| then null else chain[e + 1])
  }

  lemma AheadLink(net: Net, head: Node, chains: seq<seq<Node>>, cur: nat, i: nat, e: nat) returns (e': nat)
    requires Structure(net, head, chains, cur) && e < |chains[0]| && chains[0][e] in net && i < |net[chains[0][e]].fwd|
    ensures AheadAt(net, chains[0], i, e, e')
  {
    var x := chains[0][e];
    assert TowerOk(net, chains, x) && ChainOk(net, head, chains, cur, 0) && ChainOk(net, head, chains, cur, i);
    assert LinkedAt(net, [head] + chains[0], 0, e + 1);
    e' := 0;
    if x in chains[i] {
      var j :| 0 <= j < |chains[i]| && chains[i][j] == x;
      var full := [head] + chains[i];
      assert LinkedAt(net, full, i, j + 1);
      if j + 1 < |chains[i]| {
        assert LinkedAt(net, full, i, j + 2);
        var y := chains[i][j + 1];
        InLower(net, head, chains, cur, i, 0, y);
        e' :| 0 <= e' < |chains[0]| && chains[0][e'] == y;
        Earlier(chains[0], x, y, e, e');
      }
    }
  }

  /** Positive up to q and negative from there on. */
  lemma NoMatches(chain: seq<Node>, dir: Key -> int, q: nat)
    requires q <= |chain|
    requires q > 0 ==> dir(chain[q - 1].key) > 0
    requires q < |chain| ==> dir(chain[q].key) < 0
    ensures MonotoneOn(chain, dir) ==> RunOf(chain, dir, 0, 0)
  {
    forall i | 0 <= i < |chain| && MonotoneOn(chain, dir)
      ensures dir(chain[i].key) != 0
    {
      assert i < q - 1 ==> Downhill(dir, chain[i].key, chain[q - 1].key);
      assert i > q ==> Downhill(dir, chain[q].key, chain[i].key);
    }
  }

  lemma MatchRun(chain: seq<Node>, dir: Key -> int, b: nat, q: nat, e: nat)
    requires b <= q <= e < |chain| && dir(chain[b].key) == 0 && dir(chain[e].key) == 0
    requires b > 0 ==> dir(chain[b - 1].key) > 0
    requires e + 1 < |chain| ==> dir(chain[e + 1].key) < 0
    ensures MonotoneOn(chain, dir) ==> RunOf(chain, dir, b, e + 1)
  {
    forall i | 0 <= i < |chain| && MonotoneOn(chain, dir)
      ensures dir(chain[i].key) == 0 <==> b <= i <= e
    {
      assert i < b - 1 ==> Downhill(dir, chain[i].key, chain[b - 1].key);
      assert i > e + 1 ==> Downhill(dir, chain[e + 1].key, chain[i].key);
      assert b < i ==> Downhill(dir, chain[b].key, chain[i].key);
      assert i < e ==> Downhill(dir, chain[i].key, chain[e].key);
    }
  }

  lemma Earlier(chain: seq<Node>, y: Node, x: Node, i: nat, j: nat)
    requires Ascending(chain) && i < |chain| && j < |chain| && chain[i] == y && chain[j] == x && NodeBefore(y, x)
    ensures i < j
  {
    NodeBeforeIrreflexive(x);
    if j < i {
      assert NodeBefore(x, y);
      BelowMonotone(x, y, ByVersion(x.key, x.tid));
    }
  }

  lemma TowerFacts(net: Net, head: Node, chains: seq<seq<Node>>, cur: nat, q: nat)
    requires Structure(net, head, chains, cur) && q < |chains[0]|
    ensures chains[0][q] in net && 1 <= |net[chains[0][q]].fwd| == |net[chains[0][q]].bwd|
  {
    assert TowerOk(net, chains, chains[0][q]);
  }

  /** Keys with the prefix form one run that begins at the prefix. */
  lemma PrefixRun(chain: seq<Node>, prefix: Key, b: nat, e: nat)
    requires Ascending(chain) && SplitAt(chain, ByKey(prefix), b) && b <= e <= |chain|
    requires forall j :: b <= j < e ==> StartsWith(chain[j].key, prefix)
    requires e < |chain| ==> !StartsWith(chain[e].key, prefix)
    ensures forall i :: 0 <= i < |chain| ==> (StartsWith(chain[i].key, prefix) <==> b <= i < e)
  {
    forall i | 0 <= i < |chain|
      ensures StartsWith(chain[i].key, prefix) <==> b <= i < e
    {
      if StartsWith(chain[i].key, prefix) {
        PrefixNotBelow(chain[i].key, prefix);
        assert !Below(chain[i], ByKey(prefix));
        if i > e {
          PrefixEnd(chain, prefix, b, e, i);
        }
      }
    }
  }

  lemma PrefixEnd(chain: seq<Node>, prefix: Key, b: nat, e: nat, i: nat)
    requires Ascending(chain) && SplitAt(chain, ByKey(prefix), b) && b <= e < i < |chain|
    requires !StartsWith(chain[e].key, prefix)
    ensures !StartsWith(chain[i].key, prefix)
  {
    if StartsWith(chain[i].key, prefix) {
      assert !Below(chain[e], ByKey(prefix)) && NodeBefore(chain[e], chain[i]);
      BeyondPrefix(chain[e].key, prefix, chain[i].key);
      LessAsymmetric(chain[i].key, chain[e].key);
    }
  }

  /** The bottom level, split at key, as DropNewest sees it. */
  lemma DropSplit(chain: seq<Node>, es: seq<Entry>, key: Key, p: nat)
    requires Ascending(chain) && SplitAt(chain, ByKey(key), p) && |es| == |chain|
    requires forall i :: 0 <= i < |chain| ==> es[i].key == chain[i].key && es[i].tid == chain[i].tid
    ensures DropNewest(es, key) == (if p < |es| && es[p].key == key then Without(es, p) else es)
  {
    LessIrreflexive(key);
    forall j | 0 <= j < p
      ensures es[j].key != key
    {
      assert Below(chain[j], ByKey(key));
    }
    if p < |es| && es[p].key != key {
      forall j | p <= j < |es|
        ensures es[j].key != key
      {
        assert !Below(chain[p], ByKey(key));
        LessTotal(es[p].key, key);
        assert j > p ==> NodeBefore(chain[p], chain[j]);
        if Less(key, es[p].key) {
          LessAsymmetric(key, es[p].key);
        }
      }
    }
    DropAt(es, key, p);
  }

  lemma {:induction false} DropAt(es: seq<Entry>, key: Key, p: nat)
    requires p <= |es| && forall j :: 0 <= j < p ==> es[j].key != key
    requires p < |es| && es[p].key != key ==> forall j :: p <= j < |es| ==> es[j].key != key
    ensures DropNewest(es, key) == (if p < |es| && es[p].key == key then Without(es, p) else es)
  {
    if es != [] {
      var tl := es[1..];
      assert es == [es[0]] + tl;
      if p > 0 {
        DropAt(tl, key, p - 1);
        WithoutTail(es, p);
      } else if es[0].key != key {
        DropAt(tl, key, 0);
      }
    }
  }

  lemma WithoutTail(es: seq<Entry>, p: nat)
    requires 0 < p
    ensures p < |es| ==> [es[0]] + Without(es[1..], p - 1) == Without(es, p)
  {
  }

  lemma {:induction false} BytesWithout(es: seq<Entry>, p: nat)
    requires p < |es|
    ensures Bytes(Without(es, p)) == Bytes(es) - EntryBytes(es[p])
  {
    var rest := Without(es, p);
    BytesInsert(rest, p, es[p]);
    assert rest[..p] + [es[p]] + rest[p..] == es;
  }

  lemma {:induction false} ListingWithout(chain: seq<Node>, p: nat)
    requires p < |chain|
    ensures Listing(Without(chain, p)) == Without(Listing(chain), p)
  {
    hide Listing;
  }

  /** How far up a new node is linked: all levels if it raises the list, else until a bit is clear. */
  function LinkHeight(raised: bool, bits: seq<bool>, top: nat, i: nat): nat
    requires top <= |bits|
    decreases top - i
  {
    if i < top && (i == 0 || raised || bits[i]) then LinkHeight(raised, bits, top, i + 1) else i
  }

  /** Node x is linked on the levels below i and not yet on the others. */
  ghost predicate Rising(net: Net, head: Node, chains: seq<seq<Node>>, c0: seq<seq<Node>>, cur: nat, x: Node,
      at: seq<nat>, i: nat) {
    && Structure(net, head, chains, cur) && FreshFrom(net, x, cur, i) && x != head
    && |chains| == |c0| && |at| == cur && i <= cur
    && (forall k :: i <= k < |c0| ==> chains[k] == c0[k])
    && (forall k :: 0 <= k < cur ==> Fits(c0[k], at[k], x))
    && (forall k :: 0 <= k < |c0| ==> x !in c0[k])
    && (i > 0 ==> x in chains[i - 1] && chains[0] == Insert(c0[0], at[0], x))
  }

  lemma RisingFacts(net: Net, head: Node, chains: seq<seq<Node>>, c0: seq<seq<Node>>, cur: nat, x: Node, at: seq<nat>,
      i: nat)
    requires Rising(net, head, chains, c0, cur, x, at, i)
    ensures Structure(net, head, chains, cur) && 0 < cur <= |c0| == |chains| && |at| == cur
    ensures forall k :: 0 <= k < cur ==> at[k] <= |c0[k]|
    ensures i > 0 ==> chains[0] == Insert(c0[0], at[0], x)
    ensures i <= cur && (i > 0 ==> x in chains[i - 1]) && forall k :: i <= k < |c0| ==> chains[k] == c0[k]
  {
  }

  lemma RisingStep(net: Net, head: Node, chains: seq<seq<Node>>, c0: seq<seq<Node>>, cur: nat, x: Node, at: seq<nat>,
      i: nat)
    requires Rising(net, head, chains, c0, cur, x, at, i) && i < cur
    ensures |chains| == |c0| >= cur && |at| == cur && at[i] <= |chains[i]| && chains[i] == c0[i]
    ensures var pred := ([head] + chains[i])[at[i]];
      && CanSplice(net, i, pred, x)
      && Rising(Splice(net, i, pred, x), head, chains[i := Insert(chains[i], at[i], x)], c0, cur, x, at, i + 1)
  {
    hide Splice, ChainOk, TowerOk;
    InsertStep(net, head, chains, cur, x, i, at[i]);
  }

  lemma RisingStart(net: Net, head: Node, chains: seq<seq<Node>>, cur: nat, x: Node, level: nat, ps: seq<nat>,
      at: seq<nat>)
    requires Structure(net, head, chains, cur) && cur <= level <= |chains| && x !in net && |ps| == cur && |at| == level
    requires forall i :: 0 <= i < cur ==> SplitAt(chains[i], ByVersion(x.key, x.tid), ps[i])
    requires ps[0] < |chains[0]| ==> chains[0][ps[0]].key != x.key || chains[0][ps[0]].tid != x.tid
    requires forall i :: 0 <= i < level ==> at[i] == (if i < cur then ps[i] else 0)
    ensures Rising(net[x := Tower(Nulls(level), Nulls(level))], head, chains, chains, level, x, at, 0)
    ensures forall i :: cur <= i < level ==> chains[i] == []
  {
    FitsAll(net, head, chains, cur, x, ps);
    AddFresh(net, net[x := Tower(Nulls(level), Nulls(level))], head, chains, cur, x, level, ps, at);
  }

  /** No version is listed twice. */
  lemma OnlyPosition(net: Net, head: Node, chains: seq<seq<Node>>, cur: nat, p: nat)
    requires Structure(net, head, chains, cur) && p < |chains[0]|
    ensures forall j :: 0 <= j < |chains[0]| && j != p ==> chains[0][j] != chains[0][p]
  {
    assert ChainOk(net, head, chains, cur, 0);
    forall j | 0 <= j < |chains[0]| && j != p
      ensures chains[0][j] != chains[0][p]
    {
      NodeBeforeIrreflexive(chains[0][p]);
      assert if j < p then NodeBefore(chains[0][j], chains[0][p]) else NodeBefore(chains[0][p], chains[0][j]);
    }
  }

  lemma {:induction false} ListingInsert(chain: seq<Node>, p: nat, x: Node)
    requires p <= |chain|
    ensures Listing(Insert(chain, p, x)) == Listing(chain)[..p] + [Entry(x.key, x.value, x.tid)] + Listing(chain)[p..]
  {
    hide Listing;
  }

  lemma NodesInsert(chain: seq<Node>, p: nat, x: Node)
    requires p <= |chain|
    ensures (set y | y in Insert(chain, p, x)) == (set y | y in chain) + {x}
  {
    forall y
      ensures y in Insert(chain, p, x) <==> y == x || y in chain
    {
      InsertMember(chain, p, x, y);
    }
  }

  /** A version that is not in the bottom level fits, on every level, where its search stopped. */
  lemma FitsAll(net: Net, head: Node, chains: seq<seq<Node>>, cur: nat, x: Node, ps: seq<nat>)
    requires Structure(net, head, chains, cur) && |ps| == cur
    requires forall i :: 0 <= i < cur ==> SplitAt(chains[i], ByVersion(x.key, x.tid), ps[i])
    requires ps[0] < |chains[0]| ==> chains[0][ps[0]].key != x.key || chains[0][ps[0]].tid != x.tid
    ensures forall i :: 0 <= i < cur ==> Fits(chains[i], ps[i], x)
    ensures forall i :: 0 <= i < |chains| ==> x !in chains[i]
  {
    forall y | y in chains[0]
      ensures y.key != x.key || y.tid != x.tid
    {
      OnlyThere(net, head, chains, cur, x, ps[0], y);
    }
    forall i, j | 0 <= i < cur && ps[i] <= j < |chains[i]|
      ensures NodeBefore(x, chains[i][j])
    {
      var y := chains[i][j];
      InLower(net, head, chains, cur, i, 0, y);
      assert !Below(y, ByVersion(x.key, x.tid));
      LessTotal(x.key, y.key);
    }
    forall i | 0 <= i < |chains|
      ensures x !in chains[i]
    {
      if x in chains[i] {
        InLower(net, head, chains, cur, i, 0, x);
      }
    }
  }

  lemma OnlyThere(net: Net, head: Node, chains: seq<seq<Node>>, cur: nat, x: Node, p: nat, y: Node)
    requires Structure(net, head, chains, cur) && SplitAt(chains[0], ByVersion(x.key, x.tid), p)
    requires p < |chains[0]| ==> chains[0][p].key != x.key || chains[0][p].tid != x.tid
    requires y in chains[0]
    ensures y.key != x.key || y.tid != x.tid
  {
    assert ChainOk(net, head, chains, cur, 0);
    var j :| 0 <= j < |chains[0]| && chains[0][j] == y;
    LessIrreflexive(x.key);
    if j < p {
      assert Below(y, ByVersion(x.key, x.tid));
    } else if j > p {
      assert NodeBefore(chains[0][p], y) && !Below(chains[0][p], ByVersion(x.key, x.tid));
    }
  }

  /** Adding an unlinked node and raising the current level keeps the structure. */
  lemma AddFresh(net: Net, net': Net, head: Node, chains: seq<seq<Node>>, cur: nat, x: Node, level: nat, ps: seq<nat>,
      at: seq<nat>)
    requires Structure(net, head, chains, cur) && cur <= level <= |chains| && x !in net && |ps| == cur && |at| == level
    requires
      && net'.Keys == net.Keys + {x} && (forall y :: y in net ==> net'[y] == net[y])
      && net'[x] == Tower(Nulls(level), Nulls(level))
    requires forall i :: 0 <= i < level ==> at[i] == (if i < cur then ps[i] else 0)
    requires forall i :: 0 <= i < cur ==> Fits(chains[i], ps[i], x)
    ensures Structure(net', head, chains, level) && FreshFrom(net', x, level, 0)
    ensures forall i :: 0 <= i < level ==> Fits(chains[i], at[i], x)
    ensures forall i :: cur <= i < level ==> chains[i] == []
  {
    forall i | 0 <= i < |chains|
      ensures ChainOk(net', head, chains, level, i) && (i >= cur ==> chains[i] == [])
    {
      assert ChainOk(net, head, chains, cur, i);
      var full := [head] + chains[i];
      forall j | 0 <= j < |full|
        ensures LinkedAt(net', full, i, j)
      {
        assert LinkedAt(net, full, i, j);
      }
    }
    forall y | y in chains[0]
      ensures TowerOk(net', chains, y)
    {
      assert TowerOk(net, chains, y);
    }
  }

  /** The bottom level, split at the version, as PutSorted sees it. */
  lemma SplitPut(chain: seq<Node>, es: seq<Entry>, e: Entry, p: nat)
    requires SplitAt(chain, ByVersion(e.key, e.tid), p) && |es| == |chain|
    requires forall i :: 0 <= i < |chain| ==> es[i].key == chain[i].key && es[i].tid == chain[i].tid
    ensures p <= |es|
    ensures PutSorted(es, e) == (if p < |es| && es[p].key == e.key && es[p].tid == e.tid then es[p := e]
      else es[..p] + [e] + es[p..])
  {
    forall j | 0 <= j < p
      ensures Before(es[j], e)
    {
      assert Below(chain[j], ByVersion(e.key, e.tid));
    }
    assert p < |es| ==> !Below(chain[p], ByVersion(e.key, e.tid));
    PutSortedAt(es, e, p);
  }

  lemma {:induction false} BytesSplit(a: seq<Entry>, b: seq<Entry>)
    ensures Bytes(a + b) == Bytes(a) + Bytes(b)
  {
    if a == [] {
      assert a + b == b;
    } else {
      BytesSplit(a[1..], b);
      assert (a + b)[1..] == a[1..] + b;
    }
  }

  lemma {:induction false} BytesInsert(es: seq<Entry>, p: nat, e: Entry)
    requires p <= |es|
    ensures Bytes(es[..p] + [e] + es[p..]) == Bytes(es) + EntryBytes(e)
  {
    BytesSplit(es[..p] + [e], es[p..]);
    BytesSplit(es[..p], [e]);
    BytesSplit(es[..p], es[p..]);
    assert es == es[..p] + es[p..];
    assert [e][1..] == [];
  }

  lemma {:induction false} BytesUpdate(es: seq<Entry>, p: nat, e: Entry)
    requires p < |es|
    ensures Bytes(es[p := e]) == Bytes(es) + EntryBytes(e) - EntryBytes(es[p])
  {
    BytesWithout(es, p);
    var rest := Without(es, p);
    BytesInsert(rest, p, e);
    assert rest[..p] + [e] + rest[p..] == es[p := e];
  }

  /** The search for key has come to position q of es and has missed nothing. */
  ghost predicate Scanning(es: seq<Entry>, key: Key, tid: nat, q: nat) {
    && Sorted(es) && q <= |es|
    && Lookup(es, key, tid) == Lookup(es[q..], key, tid)
    && (q < |es| ==> !Less(es[q].key, key))
  }

  lemma ScanStart(chain: seq<Node>, es: seq<Entry>, key: Key, tid: nat, q: nat)
    requires Ascending(chain) && SplitAt(chain, ByKey(key), q) && |es| == |chain|
    requires forall i :: 0 <= i < |chain| ==> es[i].key == chain[i].key && es[i].tid == chain[i].tid
    ensures Scanning(es, key, tid, q)
  {
    ListingSorted(chain, es);
    LessIrreflexive(key);
    forall j | 0 <= j < q
      ensures es[j].key != key
    {
      assert Below(chain[j], ByKey(key));
    }
    LookupSkipAll(es, key, tid, q);
    assert q < |es| ==> !Below(chain[q], ByKey(key));
  }

  lemma ScanHit(es: seq<Entry>, key: Key, tid: nat, q: nat)
    requires Scanning(es, key, tid, q) && q < |es| && es[q].key == key && Visible(es[q].tid, tid)
    ensures Lookup(es, key, tid) == Some(es[q])
  {
  }

  lemma ScanMiss(es: seq<Entry>, key: Key, tid: nat, q: nat)
    requires Scanning(es, key, tid, q) && q < |es| && es[q].key == key && !Visible(es[q].tid, tid)
    ensures Scanning(es, key, tid, q + 1)
  {
    LookupSkip(es, key, tid, q);
    if q + 1 < |es| {
      assert Before(es[q], es[q + 1]);
      LessIrreflexive(key);
      if Less(key, es[q + 1].key) {
        LessAsymmetric(key, es[q + 1].key);
      }
    }
  }

  lemma ScanEnd(es: seq<Entry>, key: Key, tid: nat, q: nat)
    requires Scanning(es, key, tid, q) && (q < |es| ==> es[q].key != key)
    ensures Lookup(es, key, tid) == None
  {
    if q < |es| {
      LessTotal(es[q].key, key);
    }
    LookupBeyond(es, key, tid, q);
  }

  lemma ListingSorted(chain: seq<Node>, es: seq<Entry>)
    requires Ascending(chain) && |es| == |chain|
    requires forall i :: 0 <= i < |chain| ==> es[i].key == chain[i].key && es[i].tid == chain[i].tid
    ensures Sorted(es)
  {
    forall i, j | 0 <= i < j < |es|
      ensures Before(es[i], es[j])
    {
      assert NodeBefore(chain[i], chain[j]);
    }
  }

  lemma EmptyStructure(net: Net, head: Node, chains: seq<seq<Node>>, cur: nat)
    requires |chains| > 0 && 1 <= cur <= |chains| && (forall i :: 0 <= i < |chains| ==> chains[i] == [])
    requires head in net && net[head] == Tower(Nulls(|chains|), Nulls(|chains|))
    ensures Structure(net, head, chains, cur)
  {
    forall i | 0 <= i < |chains|
      ensures ChainOk(net, head, chains, cur, i)
    {
      assert [head] + chains[i] == [head];
      assert LinkedAt(net, [head], i, 0);
    }
  }

  /** The position on level i of a node reached on level i + 1 (p nodes from its head). */
  lemma LowerPosition(net: Net, head: Node, chains: seq<seq<Node>>, cur: nat, i: nat, x: Node, p: nat) returns (q: nat)
    requires Structure(net, head, chains, cur) && i < |chains|
    requires p > 0 ==> i + 1 < |chains| && p <= |chains[i + 1]| && x == chains[i + 1][p - 1]
    requires p == 0 ==> x == head
    ensures q <= |chains[i]| && x == ([head] + chains[i])[q] && (p > 0 <==> q > 0)
  {
    if p == 0 {
      q := 0;
    } else {
      assert ChainOk(net, head, chains, cur, i + 1);
      assert x in chains[i + 1];
      var k :| 0 <= k < |chains[i]| && chains[i][k] == x;
      q := k + 1;
    }
  }

  /** The forward pointer of the p-th node on level i leads to the next one, if any. */
  lemma StepRight(net: Net, head: Node, chains: seq<seq<Node>>, cur: nat, i: nat, p: nat)
    requires Structure(net, head, chains, cur) && i < |chains| && p <= |chains[i]|
    ensures var x := ([head] + chains[i])[p];
      x in net && i < |net[x].fwd| && net[x].fwd[i] == (if p < |chains[i]| then chains[i][p] else null)
    ensures Ascending(chains[i])
  {
    assert ChainOk(net, head, chains, cur, i);
    assert LinkedAt(net, [head] + chains[i], i, p);
  }
}
