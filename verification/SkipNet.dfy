/** The links of a skip list: towers of forward and backward pointers, level by level. */
module SkipNet {
  import opened Keys
  import opened Versions

  /** A list node.  Key and id never change once the node is linked. */
  class Node {
    const key: Key
    const tid: nat
    var value: Value
    var forward: seq<Node?>
    var backward: seq<Node?>

    constructor (key: Key, value: Value, tid: nat, level: nat)
      ensures this.key == key && this.value == value && this.tid == tid
      ensures forward == Nulls(level) && backward == Nulls(level)
    {
      this.key := key;
      this.value := value;
      this.tid := tid;
      forward := Nulls(level);
      backward := Nulls(level);
    }
  }

  function Nulls(level: nat): (s: seq<Node?>)
    ensures |s| == level && forall i :: 0 <= i < level ==> s[i] == null
  {
    seq(level, _ => null)
  }

  /** The pointers of one node. */
  datatype Tower = Tower(fwd: seq<Node?>, bwd: seq<Node?>)

  /** The pointers of all nodes of a list. */
  type Net = map<Node, Tower>

  /** Node x now points at y on level i, forwards or backwards. */
  function SetFwd(net: Net, x: Node, i: nat, y: Node?): Net
    requires x in net && i < |net[x].fwd|
  {
    net[x := net[x].(fwd := net[x].fwd[i := y])]
  }

  function SetBwd(net: Net, x: Node, i: nat, y: Node?): Net
    requires x in net && i < |net[x].bwd|
  {
    net[x := net[x].(bwd := net[x].bwd[i := y])]
  }

  /** What a search moves past: keys below k, or versions before (k, t). */
  datatype Bound = ByKey(k: Key) | ByVersion(k: Key, t: nat)

  predicate Below(x: Node, b: Bound) {
    match b
    case ByKey(k) => Less(x.key, k)
    case ByVersion(k, t) => Less(x.key, k) || (x.key == k && x.tid > t)
  }

  /** Order of nodes: key ascending, id descending. */
  predicate NodeBefore(x: Node, y: Node) {
    Below(x, ByVersion(y.key, y.tid))
  }

  ghost predicate Ascending(chain: seq<Node>) {
    forall i, j :: 0 <= i < j < |chain| ==> NodeBefore(chain[i], chain[j])
  }

  /** A bound that passes y passes everything before y. */
  lemma BelowMonotone(x: Node, y: Node, b: Bound)
    requires NodeBefore(x, y) && Below(y, b)
    ensures Below(x, b)
  {
    if Less(x.key, y.key) && Less(y.key, b.k) {
      LessTransitive(x.key, y.key, b.k);
    }
  }

  lemma NodeBeforeIrreflexive(x: Node)
    ensures !NodeBefore(x, x)
  {
    LessIrreflexive(x.key);
  }

  // ------------------------------------------------------------ one level

  /** The j-th node of `full` (the head and then a chain) points at the next one on level i,
      and every node after the head points back at the one before it. */
  ghost predicate LinkedAt(net: Net, full: seq<Node>, i: nat, j: nat)
    requires j < |full|
  {
    && full[j] in net
    && i < |net[full[j]].fwd| == |net[full[j]].bwd|
    && net[full[j]].fwd[i] == (if j + 1 < |full| then full[j + 1] else null)
    && (j > 0 ==> net[full[j]].bwd[i] == full[j - 1])
  }

  ghost predicate Level(net: Net, full: seq<Node>, i: nat) {
    forall j :: 0 <= j < |full| ==> LinkedAt(net, full, i, j)
  }

  ghost predicate Distinct(full: seq<Node>) {
    forall i, j :: 0 <= i < j < |full| ==> full[i] != full[j]
  }

  /** Everything before position p is passed by the bound, everything from p on is not. */
  ghost predicate SplitAt(chain: seq<Node>, b: Bound, p: nat) {
    && p <= |chain|
    && (forall j :: 0 <= j < p ==> Below(chain[j], b))
    && (forall j :: p <= j < |chain| ==> !Below(chain[j], b))
  }

  /** Where the search stops in an ascending chain. */
  lemma SplitHere(chain: seq<Node>, b: Bound, p: nat)
    requires Ascending(chain) && p <= |chain|
    requires p > 0 ==> Below(chain[p - 1], b)
    requires p < |chain| ==> !Below(chain[p], b)
    ensures SplitAt(chain, b, p)
  {
    forall j | 0 <= j < p
      ensures Below(chain[j], b)
    {
      if j < p - 1 {
        BelowMonotone(chain[j], chain[p - 1], b);
      }
    }
    forall j | p <= j < |chain|
      ensures !Below(chain[j], b)
    {
      if j > p && Below(chain[j], b) {
        BelowMonotone(chain[p], chain[j], b);
      }
    }
  }

  /** The chain with x put in at position p. */
  function Insert<T>(chain: seq<T>, p: nat, x: T): seq<T>
    requires p <= |chain|
  {
    chain[..p] + [x] + chain[p..]
  }

  /** x is not yet next to pred on level i, and the pointers to write exist. */
  ghost predicate CanSplice(net: Net, i: nat, pred: Node, x: Node) {
    && pred in net && x in net && pred != x && i < |net[pred].fwd| && i < |net[x].fwd| && i < |net[x].bwd|
    && (net[pred].fwd[i] != null ==> net[pred].fwd[i] in net && i < |net[net[pred].fwd[i]].bwd|)
    && net[pred].fwd[i] != x && net[pred].fwd[i] != pred
  }

  /** Links x after pred on level i: the four pointer writes. */
  ghost function Splice(net: Net, i: nat, pred: Node, x: Node): (r: Net)
    requires CanSplice(net, i, pred, x)
  {
    var next := net[pred].fwd[i];
    var n1 := SetFwd(net, x, i, next);
    var n2 := if next == null then n1 else SetBwd(n1, next, i, x);
    var n3 := SetFwd(n2, pred, i, x);
    SetBwd(n3, x, i, pred)
  }

  /** What a splice changes. */
  lemma SpliceFrame(net: Net, i: nat, pred: Node, x: Node)
    requires CanSplice(net, i, pred, x)
    ensures var r, next := Splice(net, i, pred, x), net[pred].fwd[i];
      && r.Keys == net.Keys
      && r[x] == Tower(net[x].fwd[i := next], net[x].bwd[i := pred])
      && r[pred] == net[pred].(fwd := net[pred].fwd[i := x])
      && (next != null ==> r[next] == net[next].(bwd := net[next].bwd[i := x]))
      && forall y :: y in net && y != x && y != pred && y != next ==> r[y] == net[y]
  {
  }

  /** On its own level a splice inserts x after pred. */
  lemma SpliceLevel(net: Net, i: nat, full: seq<Node>, p: nat, x: Node)
    requires Level(net, full, i) && Distinct(full) && p < |full| && x in net && x !in full
    requires i < |net[x].fwd| == |net[x].bwd|
    ensures CanSplice(net, i, full[p], x) && Level(Splice(net, i, full[p], x), Insert(full, p + 1, x), i)
  {
    var pred := full[p];
    assert LinkedAt(net, full, i, p);
    var next := net[pred].fwd[i];
    assert p + 1 < |full| ==> LinkedAt(net, full, i, p + 1);
    SpliceFrame(net, i, pred, x);
    var r, f := Splice(net, i, pred, x), Insert(full, p + 1, x);
    forall j | 0 <= j < |f|
      ensures LinkedAt(r, f, i, j)
    {
      if j <= p {
        assert f[j] == full[j] && LinkedAt(net, full, i, j);
      } else if j > p + 1 {
        assert f[j] == full[j - 1] && LinkedAt(net, full, i, j - 1);
      }
    }
  }

  /** On every other level a splice changes nothing. */
  lemma SpliceOther(net: Net, i: nat, pred: Node, x: Node, full: seq<Node>, k: nat)
    requires CanSplice(net, i, pred, x)
    requires Level(net, full, k) && k != i
    ensures Level(Splice(net, i, pred, x), full, k)
  {
    SpliceFrame(net, i, pred, x);
    forall j | 0 <= j < |full|
      ensures LinkedAt(Splice(net, i, pred, x), full, k, j)
    {
      assert LinkedAt(net, full, k, j);
    }
  }

  // ------------------------------------------------------------ all levels

  /** Level i: its chain is ascending, properly linked both ways, part of the level below,
      and empty at or above the current level. */
  ghost predicate ChainOk(net: Net, head: Node, chains: seq<seq<Node>>, cur: nat, i: nat)
    requires i < |chains|
  {
    && Ascending(chains[i]) && head !in chains[i]
    && Level(net, [head] + chains[i], i)
    && (i > 0 ==> forall x :: x in chains[i] ==> x in chains[i - 1])
    && (i >= cur ==> chains[i] == [])
  }

  /** A listed node has between one and max pointers, and null ones on levels it skips. */
  ghost predicate TowerOk(net: Net, chains: seq<seq<Node>>, x: Node) {
    && x in net && 1 <= |net[x].fwd| == |net[x].bwd| <= |chains|
    && forall i :: 0 <= i < |net[x].fwd| && x !in chains[i] ==> net[x].fwd[i] == null && net[x].bwd[i] == null
  }

  ghost predicate Structure(net: Net, head: Node, chains: seq<seq<Node>>, cur: nat) {
    && 1 <= cur <= |chains|
    && head in net && |net[head].fwd| == |net[head].bwd| == |chains|
    && (forall i :: 0 <= i < |chains| ==> ChainOk(net, head, chains, cur, i))
    && (forall x :: x in chains[0] ==> TowerOk(net, chains, x))
  }

  lemma {:induction false} InLower(net: Net, head: Node, chains: seq<seq<Node>>, cur: nat, i: nat, k: nat, x: Node)
    requires Structure(net, head, chains, cur) && k <= i < |chains| && x in chains[i]
    ensures x in chains[k]
    decreases i - k
  {
    if k < i {
      assert ChainOk(net, head, chains, cur, i);
      InLower(net, head, chains, cur, i - 1, k, x);
    }
  }

  lemma FullDistinct(head: Node, chain: seq<Node>)
    requires Ascending(chain) && head !in chain
    ensures Distinct([head] + chain)
  {
    var full := [head] + chain;
    forall i, j | 0 <= i < j < |full|
      ensures full[i] != full[j]
    {
      assert full[j] == chain[j - 1];
      if i > 0 {
        assert full[i] == chain[i - 1] && NodeBefore(chain[i - 1], chain[j - 1]);
        NodeBeforeIrreflexive(chain[i - 1]);
      }
    }
  }

  /** A fresh node: as many null pointers as levels from h on, everything below h already linked. */
  ghost predicate FreshFrom(net: Net, x: Node, level: nat, h: nat) {
    && x in net && |net[x].fwd| == |net[x].bwd| == level
    && forall k :: h <= k < level ==> net[x].fwd[k] == null && net[x].bwd[k] == null
  }

  /** x may be put in at position p of the chain. */
  ghost predicate Fits(chain: seq<Node>, p: nat, x: Node) {
    && p <= |chain|
    && (forall j :: 0 <= j < p ==> NodeBefore(chain[j], x))
    && (forall j :: p <= j < |chain| ==> NodeBefore(x, chain[j]))
  }

  lemma InsertAscending(chain: seq<Node>, p: nat, x: Node)
    requires Ascending(chain) && Fits(chain, p, x)
    ensures Ascending(Insert(chain, p, x)) && x !in chain
  {
    var c := Insert(chain, p, x);
    forall i, j | 0 <= i < j < |c|
      ensures NodeBefore(c[i], c[j])
    {
      var i', j' := if i < p then i else i - 1, if j < p then j else j - 1;
      assert i != p ==> c[i] == chain[i'];
      assert j != p ==> c[j] == chain[j'];
    }
    NodeBeforeIrreflexive(x);
  }

  lemma InsertMember(chain: seq<Node>, p: nat, x: Node, y: Node)
    requires p <= |chain|
    ensures y in Insert(chain, p, x) <==> y == x || y in chain
  {
    assert chain == chain[..p] + chain[p..];
  }

  /** The precondition for linking x on level h. */
  ghost predicate CanInsert(net: Net, head: Node, chains: seq<seq<Node>>, cur: nat, x: Node, h: nat, p: nat) {
    && Structure(net, head, chains, cur) && h < cur && x != head
    && FreshFrom(net, x, cur, h) && Fits(chains[h], p, x)
    && (h == 0 ==> x !in chains[0]) && (h > 0 ==> x in chains[h - 1])
    && forall k :: h <= k < |chains| ==> x !in chains[k]
  }

  /** Where the new pointers go on level h. */
  lemma InsertPoint(net: Net, head: Node, chains: seq<seq<Node>>, cur: nat, x: Node, h: nat, p: nat)
    requires CanInsert(net, head, chains, cur, x, h, p)
    ensures var full := [head] + chains[h];
      var pred := full[p];
      && p < |full| && Distinct(full) && x !in full && CanSplice(net, h, pred, x)
      && net[pred].fwd[h] == (if p < |chains[h]| then chains[h][p] else null)
  {
    assert ChainOk(net, head, chains, cur, h);
    var full := [head] + chains[h];
    FullDistinct(head, chains[h]);
    assert LinkedAt(net, full, h, p);
    assert p + 1 < |full| ==> LinkedAt(net, full, h, p + 1);
  }

  lemma InsertChainOk(net: Net, head: Node, chains: seq<seq<Node>>, cur: nat, x: Node, h: nat, p: nat, i: nat)
    requires CanInsert(net, head, chains, cur, x, h, p) && i < |chains|
    requires var pred := ([head] + chains[h])[p]; CanSplice(net, h, pred, x)
    ensures var pred := ([head] + chains[h])[p];
      ChainOk(Splice(net, h, pred, x), head, chains[h := Insert(chains[h], p, x)], cur, i)
  {
    InsertPoint(net, head, chains, cur, x, h, p);
    var full := [head] + chains[h];
    assert ChainOk(net, head, chains, cur, i) && ChainOk(net, head, chains, cur, h);
    if i == h {
      InsertAscending(chains[h], p, x);
      SpliceLevel(net, h, full, p, x);
      assert [head] + Insert(chains[h], p, x) == Insert(full, p + 1, x);
      forall y | y in Insert(chains[h], p, x)
        ensures h > 0 ==> y in chains[h - 1]
      {
        InsertMember(chains[h], p, x, y);
      }
      InsertMember(chains[h], p, x, head);
    } else {
      SpliceOther(net, h, full[p], x, [head] + chains[i], i);
      forall y | y in chains[i]
        ensures i == h + 1 ==> y in Insert(chains[h], p, x)
      {
        InsertMember(chains[h], p, x, y);
      }
    }
  }

  lemma InsertTowerOk(net: Net, head: Node, chains: seq<seq<Node>>, cur: nat, x: Node, h: nat, p: nat, y: Node)
    requires CanInsert(net, head, chains, cur, x, h, p) && y in chains[0] && y != x && y != head
    requires var pred := ([head] + chains[h])[p]; CanSplice(net, h, pred, x)
    ensures var pred := ([head] + chains[h])[p];
      TowerOk(Splice(net, h, pred, x), chains[h := Insert(chains[h], p, x)], y)
  {
    InsertPoint(net, head, chains, cur, x, h, p);
    var pred := ([head] + chains[h])[p];
    SpliceFrame(net, h, pred, x);
    assert TowerOk(net, chains, y);
    InsertMember(chains[h], p, x, y);
    assert pred != head ==> pred in chains[h];
    var next := net[pred].fwd[h];
    assert next != null ==> next in chains[h];
  }

  /** The list after linking x on level h. */
  lemma InsertStep(net: Net, head: Node, chains: seq<seq<Node>>, cur: nat, x: Node, h: nat, p: nat)
    requires CanInsert(net, head, chains, cur, x, h, p)
    ensures var pred, chains' := ([head] + chains[h])[p], chains[h := Insert(chains[h], p, x)];
      && CanSplice(net, h, pred, x)
      && Structure(Splice(net, h, pred, x), head, chains', cur)
      && FreshFrom(Splice(net, h, pred, x), x, cur, h + 1)
      && x in chains'[h] && Splice(net, h, pred, x).Keys == net.Keys
  {
    InsertPoint(net, head, chains, cur, x, h, p);
    var pred, chains' := ([head] + chains[h])[p], chains[h := Insert(chains[h], p, x)];
    var r := Splice(net, h, pred, x);
    SpliceFrame(net, h, pred, x);
    InsertMember(chains[h], p, x, x);
    forall i | 0 <= i < |chains'|
      ensures ChainOk(r, head, chains', cur, i)
    {
      InsertChainOk(net, head, chains, cur, x, h, p, i);
    }
    InsertTowers(net, head, chains, cur, x, h, p);
  }

  lemma InsertTowers(net: Net, head: Node, chains: seq<seq<Node>>, cur: nat, x: Node, h: nat, p: nat)
    requires CanInsert(net, head, chains, cur, x, h, p)
    requires CanSplice(net, h, ([head] + chains[h])[p], x)
    ensures var pred, chains' := ([head] + chains[h])[p], chains[h := Insert(chains[h], p, x)];
      && (forall y :: y in chains'[0] ==> TowerOk(Splice(net, h, pred, x), chains', y))
  {
    hide Splice;
    var pred, chains' := ([head] + chains[h])[p], chains[h := Insert(chains[h], p, x)];
    SpliceFrame(net, h, pred, x);
    forall y | y in chains'[0]
      ensures TowerOk(Splice(net, h, pred, x), chains', y)
    {
      if y == x {
        InsertOwnTower(net, head, chains, cur, x, h, p);
      } else {
        assert y in chains[0] by {
          if h == 0 {
            InsertMember(chains[0], p, x, y);
          }
        }
        assert y != head by {
          assert CanInsert(net, head, chains, cur, x, h, p);
          HeadOutside(net, head, chains, cur, y);
        }
        InsertTowerOk(net, head, chains, cur, x, h, p, y);
      }
    }
  }

  lemma HeadOutside(net: Net, head: Node, chains: seq<seq<Node>>, cur: nat, y: Node)
    requires Structure(net, head, chains, cur) && y in chains[0]
    ensures y != head
  {
    assert ChainOk(net, head, chains, cur, 0);
  }

  lemma InsertOwnTower(net: Net, head: Node, chains: seq<seq<Node>>, cur: nat, x: Node, h: nat, p: nat)
    requires CanInsert(net, head, chains, cur, x, h, p)
    requires CanSplice(net, h, ([head] + chains[h])[p], x)
    ensures var pred, chains' := ([head] + chains[h])[p], chains[h := Insert(chains[h], p, x)];
      TowerOk(Splice(net, h, pred, x), chains', x)
  {
    var pred, chains' := ([head] + chains[h])[p], chains[h := Insert(chains[h], p, x)];
    SpliceFrame(net, h, pred, x);
    InsertMember(chains[h], p, x, x);
    forall i | 0 <= i < h
      ensures x in chains'[i]
    {
      InLower(net, head, chains, cur, h - 1, i, x);
    }
  }
}
