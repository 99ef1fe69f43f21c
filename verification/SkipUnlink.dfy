/** Taking a node out of a skip list: all forward pointers first, then all backward pointers. */
module SkipUnlink {
  import opened Keys
  import opened SkipNet

  /** y's pointers after x was bypassed forwards on levels below k and backwards on levels below m. */
  ghost predicate BypassedAt(net: Net, net': Net, update: seq<Node>, x: Node, k: nat, m: nat, y: Node)
    requires x in net && y in net && y in net' && |net[x].fwd| <= |update|
  {
    && |net'[y].fwd| == |net[y].fwd| && |net'[y].bwd| == |net[y].bwd|
    && (forall i :: 0 <= i < |net[y].fwd| ==>
          net'[y].fwd[i] == (if i < k && i < |net[x].fwd| && y == update[i] then net[x].fwd[i] else net[y].fwd[i]))
    && (forall i :: 0 <= i < |net[y].bwd| ==>
          net'[y].bwd[i] == (if i < m && i < |net[x].fwd| && y == net[x].fwd[i] then update[i] else net[y].bwd[i]))
  }

  ghost predicate Bypassed(net: Net, net': Net, update: seq<Node>, x: Node, k: nat, m: nat) {
    && x in net && net'.Keys == net.Keys && |net[x].fwd| <= |update|
    && forall y :: y in net ==> BypassedAt(net, net', update, x, k, m, y)
  }

  /** x is the first node of its key; ps[i] nodes of level i, the last of them update[i], lie before the key. */
  ghost predicate Target(net: Net, head: Node, chains: seq<seq<Node>>, cur: nat, x: Node, update: seq<Node>,
      ps: seq<nat>) {
    && Structure(net, head, chains, cur) && |ps| == |update| == |chains| && x in net
    && (forall i :: 0 <= i < |chains| ==>
      SplitAt(chains[i], ByKey(x.key), ps[i]) && update[i] == ([head] + chains[i])[ps[i]])
    && ps[0] < |chains[0]| && chains[0][ps[0]] == x
  }

  /** If x is on level i, it stands right where the search for its key stopped. */
  lemma TargetPosition(net: Net, head: Node, chains: seq<seq<Node>>, cur: nat, x: Node, update: seq<Node>, ps: seq<nat>,
      i: nat)
    requires Target(net, head, chains, cur, x, update, ps) && i < |chains| && x in chains[i]
    ensures ps[i] < |chains[i]| && chains[i][ps[i]] == x
  {
    assert ChainOk(net, head, chains, cur, i) && ChainOk(net, head, chains, cur, 0);
    LessIrreflexive(x.key);
    var j :| 0 <= j < |chains[i]| && chains[i][j] == x;
    assert !Below(x, ByKey(x.key));
    if j > ps[i] {
      var z := chains[i][ps[i]];
      assert NodeBefore(z, x) && !Below(z, ByKey(x.key));
      InLower(net, head, chains, cur, i, 0, z);
      var q :| 0 <= q < |chains[0]| && chains[0][q] == z;
      FirstOfKey(chains[0], x, z, ps[0], q);
    }
  }

  lemma FirstOfKey(chain: seq<Node>, x: Node, z: Node, p: nat, q: nat)
    requires Ascending(chain) && SplitAt(chain, ByKey(x.key), p) && p < |chain| && chain[p] == x
    requires q < |chain| && chain[q] == z && !Below(z, ByKey(x.key))
    ensures !NodeBefore(z, x)
  {
    assert q >= p;
    LessIrreflexive(x.key);
    if q > p {
      assert NodeBefore(x, z);
    }
  }

  /** The pointers around x on one level. */
  lemma Around(net: Net, head: Node, chains: seq<seq<Node>>, cur: nat, x: Node, update: seq<Node>, ps: seq<nat>, i: nat)
    requires Target(net, head, chains, cur, x, update, ps) && i < |chains|
    ensures x in net && 1 <= |net[x].fwd| == |net[x].bwd| <= |chains|
    ensures
      && update[i] in net && update[i] != x && i < |net[update[i]].fwd| && (update[i] == head || update[i] in chains[i])
    ensures net[update[i]].fwd[i] == x <==> x in chains[i]
    ensures x in chains[i] ==> i < |net[x].fwd|
    ensures i < |net[x].fwd| && x !in chains[i] ==> net[x].fwd[i] == null
    ensures i < |net[x].fwd| && net[x].fwd[i] != null ==>
      net[x].fwd[i] in net && net[x].fwd[i] in chains[i] && i < |net[net[x].fwd[i]].bwd|
  {
    assert ChainOk(net, head, chains, cur, i);
    var full := [head] + chains[i];
    assert TowerOk(net, chains, x);
    assert LinkedAt(net, full, i, ps[i]);
    UpdateOff(net, head, chains, cur, x, update, ps, i);
    if x in chains[i] {
      TargetPosition(net, head, chains, cur, x, update, ps, i);
      assert full[ps[i] + 1] == x;
      assert LinkedAt(net, full, i, ps[i] + 1);
      assert ps[i] + 2 < |full| ==> LinkedAt(net, full, i, ps[i] + 2);
    } else {
      assert ps[i] < |chains[i]| ==> full[ps[i] + 1] == chains[i][ps[i]];
    }
  }

  lemma UpdateOff(net: Net, head: Node, chains: seq<seq<Node>>, cur: nat, x: Node, update: seq<Node>, ps: seq<nat>,
      i: nat)
    requires Target(net, head, chains, cur, x, update, ps) && i < |chains|
    ensures update[i] != x && (update[i] == head || update[i] in chains[i])
  {
    assert ChainOk(net, head, chains, cur, 0);
    assert x in chains[0];
    if ps[i] > 0 {
      assert Below(chains[i][ps[i] - 1], ByKey(x.key));
      LessIrreflexive(x.key);
    }
  }

  lemma BypassNone(net: Net, head: Node, chains: seq<seq<Node>>, cur: nat, x: Node, update: seq<Node>, ps: seq<nat>)
    requires Target(net, head, chains, cur, x, update, ps)
    ensures x in net && x != head && 1 <= cur <= |chains| == |update| && Bypassed(net, net, update, x, 0, 0)
  {
    assert x in chains[0];
    HeadOutside(net, head, chains, cur, x);
    assert TowerOk(net, chains, x);
  }

  lemma TargetFacts(net: Net, net': Net, head: Node, chains: seq<seq<Node>>, cur: nat, x: Node, update: seq<Node>,
      ps: seq<nat>, h: nat, i: nat)
    requires Target(net, head, chains, cur, x, update, ps) && Bypassed(net, net', update, x, h, i)
    ensures x in net && x in net' && |net'[x].fwd| == |net'[x].bwd| == |net[x].fwd| <= |update| == |chains|
  {
    assert x in chains[0];
    assert TowerOk(net, chains, x) && BypassedAt(net, net', update, x, h, i, x);
  }

  /** The next forward pointer to bypass x still has its first value. */
  lemma ForwardStep(net: Net, net': Net, head: Node, chains: seq<seq<Node>>, cur: nat, x: Node, update: seq<Node>,
      ps: seq<nat>, i: nat)
    requires Target(net, head, chains, cur, x, update, ps) && Bypassed(net, net', update, x, i, 0) && i < cur
    ensures update[i] in net' && i < |net'[update[i]].fwd| && (net'[update[i]].fwd[i] == x <==> x in chains[i])
    ensures x in chains[i] ==>
      i < |net'[x].fwd| && Bypassed(net, SetFwd(net', update[i], i, net'[x].fwd[i]), update, x, i + 1, 0)
  {
    Around(net, head, chains, cur, x, update, ps, i);
    assert BypassedAt(net, net', update, x, i, 0, update[i]) && BypassedAt(net, net', update, x, i, 0, x);
    if x in chains[i] {
      forall k | 0 <= k < |net[x].fwd| && k < i
        ensures x != update[k]
      {
        UpdateOff(net, head, chains, cur, x, update, ps, k);
      }
      var r := SetFwd(net', update[i], i, net'[x].fwd[i]);
      forall y | y in net
        ensures BypassedAt(net, r, update, x, i + 1, 0, y)
      {
        assert BypassedAt(net, net', update, x, i, 0, y);
      }
    }
  }

  /** The same for the pointer back to x. */
  lemma BackwardStep(net: Net, net': Net, head: Node, chains: seq<seq<Node>>, cur: nat, x: Node, update: seq<Node>,
      ps: seq<nat>, h: nat, i: nat)
    requires Target(net, head, chains, cur, x, update, ps) && Bypassed(net, net', update, x, h, i) && i < |net[x].fwd|
    ensures x in net' && i < |net'[x].fwd| && net'[x].fwd[i] == net[x].fwd[i]
    ensures net[x].fwd[i] == null ==> Bypassed(net, net', update, x, h, i + 1)
    ensures net[x].fwd[i] != null ==> net[x].fwd[i] in net' && i < |net'[net[x].fwd[i]].bwd|
    ensures net[x].fwd[i] != null ==> Bypassed(net, SetBwd(net', net[x].fwd[i], i, update[i]), update, x, h, i + 1)
  {
    var next := net[x].fwd[i];
    assert TowerOk(net, chains, x) by {
      assert x in chains[0];
    }
    Around(net, head, chains, cur, x, update, ps, i);
    assert BypassedAt(net, net', update, x, h, i, x);
    UpdateOff(net, head, chains, cur, x, update, ps, i);
    var r := if next == null then net' else SetBwd(net', next, i, update[i]);
    forall y | y in net
      ensures BypassedAt(net, r, update, x, h, i + 1, y)
    {
      assert BypassedAt(net, net', update, x, h, i, y);
    }
  }

  /** Above the current level there is nothing to point back. */
  lemma BackwardRest(net: Net, net': Net, head: Node, chains: seq<seq<Node>>, cur: nat, x: Node, update: seq<Node>,
      ps: seq<nat>, h: nat, i: nat)
    requires
      && Target(net, head, chains, cur, x, update, ps) && Bypassed(net, net', update, x, h, i)
      && cur <= i <= |net[x].fwd|
    ensures Bypassed(net, net', update, x, h, |net[x].fwd|)
  {
    assert TowerOk(net, chains, x) by {
      assert x in chains[0];
    }
    forall k | i <= k < |net[x].fwd|
      ensures net[x].fwd[k] == null
    {
      assert ChainOk(net, head, chains, cur, k);
    }
    forall y | y in net
      ensures BypassedAt(net, net', update, x, h, |net[x].fwd|, y)
    {
      assert BypassedAt(net, net', update, x, h, i, y);
    }
  }

  /** The level where the forward loop stops is the height of x. */
  lemma StopHeight(net: Net, head: Node, chains: seq<seq<Node>>, cur: nat, x: Node, update: seq<Node>, ps: seq<nat>,
      h: nat)
    requires Target(net, head, chains, cur, x, update, ps) && h <= cur && (forall k :: 0 <= k < h ==> x in chains[k])
    requires h < cur ==> x !in chains[h]
    ensures Height(chains, x, h)
  {
    forall k | h <= k < |chains|
      ensures x !in chains[k]
    {
      assert ChainOk(net, head, chains, cur, k);
      if h < cur && x in chains[k] {
        InLower(net, head, chains, cur, k, h, x);
      }
    }
  }

  /** The level without x. */
  function Without<T>(s: seq<T>, p: nat): seq<T>
    requires p < |s|
  {
    s[..p] + s[p + 1..]
  }

  /** One node of the shortened level. */
  lemma BypassLink(net: Net, net': Net, full: seq<Node>, p: nat, update: seq<Node>, h: nat, i: nat, j: nat)
    requires p + 1 < |full| && Level(net, full, i) && Distinct(full) && i < h && i < |update| && update[i] == full[p]
    requires full[p + 1] in net && Bypassed(net, net', update, full[p + 1], h, |net[full[p + 1]].fwd|)
    requires j < |full| - 1
    ensures LinkedAt(net', Without(full, p + 1), i, j)
  {
    var x, f := full[p + 1], Without(full, p + 1);
    var j' := if j <= p then j else j + 1;
    assert f[j] == full[j'] && LinkedAt(net, full, i, j') && LinkedAt(net, full, i, p + 1);
    assert BypassedAt(net, net', update, x, h, |net[x].fwd|, full[j']);
  }

  lemma BypassLevel(net: Net, net': Net, full: seq<Node>, p: nat, update: seq<Node>, h: nat, i: nat)
    requires p + 1 < |full| && Level(net, full, i) && Distinct(full) && i < h && i < |update| && update[i] == full[p]
    requires full[p + 1] in net && Bypassed(net, net', update, full[p + 1], h, |net[full[p + 1]].fwd|)
    ensures Level(net', Without(full, p + 1), i)
  {
    var f := Without(full, p + 1);
    forall j: nat | j < |f|
      ensures LinkedAt(net', f, i, j)
    {
      BypassLink(net, net', full, p, update, h, i, j);
    }
  }

  /** A level x is not on keeps its pointers. */
  lemma BypassOther(net: Net, net': Net, head: Node, chains: seq<seq<Node>>, cur: nat, x: Node, update: seq<Node>,
      ps: seq<nat>, h: nat, i: nat)
    requires Target(net, head, chains, cur, x, update, ps) && i < |chains|
    requires Bypassed(net, net', update, x, h, |net[x].fwd|) && h <= i && x !in chains[i]
    ensures Level(net', [head] + chains[i], i)
  {
    Around(net, head, chains, cur, x, update, ps, i);
    assert ChainOk(net, head, chains, cur, i);
    var full := [head] + chains[i];
    forall j | 0 <= j < |full|
      ensures LinkedAt(net', full, i, j)
    {
      assert LinkedAt(net, full, i, j) && BypassedAt(net, net', update, x, h, |net[x].fwd|, full[j]);
    }
  }

  /** The chains once x is off the first h levels. */
  function Cut(chains: seq<seq<Node>>, ps: seq<nat>, h: nat): (r: seq<seq<Node>>)
    requires |ps| == |chains| >= h && forall i :: 0 <= i < h ==> ps[i] < |chains[i]|
    ensures |r| == |chains|
    ensures forall i :: 0 <= i < |chains| ==> r[i] == (if i < h then Without(chains[i], ps[i]) else chains[i])
  {
    seq(|chains|, i requires 0 <= i < |chains| => if i < h then Without(chains[i], ps[i]) else chains[i])
  }

  lemma WithoutMember(s: seq<Node>, p: nat, y: Node)
    requires Ascending(s) && p < |s|
    ensures y in Without(s, p) <==> y in s && y != s[p]
  {
    var w := Without(s, p);
    if y in s && y != s[p] {
      var j :| 0 <= j < |s| && s[j] == y;
      assert w[if j < p then j else j - 1] == y;
    }
    if y in w {
      var j :| 0 <= j < |w| && w[j] == y;
      assert s[if j < p then j else j + 1] == y;
      NodeBeforeIrreflexive(y);
      assert if j < p then NodeBefore(s[j], s[p]) else NodeBefore(s[p], s[j + 1]);
    }
  }

  lemma WithoutAscending(s: seq<Node>, p: nat)
    requires Ascending(s) && p < |s|
    ensures Ascending(Without(s, p))
  {
    var w := Without(s, p);
    forall i, j | 0 <= i < j < |w|
      ensures NodeBefore(w[i], w[j])
    {
      var i', j' := if i < p then i else i + 1, if j < p then j else j + 1;
      assert w[i] == s[i'] && w[j] == s[j'];
    }
  }

  /** x is on exactly the first h levels. */
  ghost predicate Height(chains: seq<seq<Node>>, x: Node, h: nat) {
    && h <= |chains| && (forall i :: 0 <= i < h ==> x in chains[i])
    && (forall i :: h <= i < |chains| ==> x !in chains[i])
  }

  /** What remains is a skip list without x. */
  lemma BypassStructure(net: Net, net': Net, head: Node, chains: seq<seq<Node>>, cur: nat, x: Node, update: seq<Node>,
      ps: seq<nat>, h: nat)
    requires Target(net, head, chains, cur, x, update, ps) && Height(chains, x, h)
    requires Bypassed(net, net', update, x, h, |net[x].fwd|)
    ensures forall i :: 0 <= i < h ==> ps[i] < |chains[i]| && chains[i][ps[i]] == x
    ensures Structure(net' - {x}, head, Cut(chains, ps, h), cur)
  {
    forall i | 0 <= i < h
      ensures ps[i] < |chains[i]| && chains[i][ps[i]] == x
    {
      TargetPosition(net, head, chains, cur, x, update, ps, i);
    }
    var r := Cut(chains, ps, h);
    forall i | 0 <= i < |chains|
      ensures ChainOk(net' - {x}, head, r, cur, i)
    {
      CutChainOk(net, net', head, chains, cur, x, update, ps, h, i);
    }
    CutTowers(net, net', head, chains, cur, x, update, ps, h);
    assert ChainOk(net, head, chains, cur, 0) && BypassedAt(net, net', update, x, h, |net[x].fwd|, head);
  }

  /** Everything there is to know once x is bypassed. */
  lemma BypassDone(net: Net, net': Net, head: Node, chains: seq<seq<Node>>, cur: nat, x: Node, update: seq<Node>,
      ps: seq<nat>, h: nat)
    requires Target(net, head, chains, cur, x, update, ps) && Height(chains, x, h)
    requires Bypassed(net, net', update, x, h, |net[x].fwd|)
    ensures
      && |ps| == |chains| >= h > 0 && (forall i :: 0 <= i < h ==> ps[i] < |chains[i]|) && chains[0][ps[0]] == x
      && x != head
    ensures Structure(net' - {x}, head, Cut(chains, ps, h), cur)
    ensures forall y :: y in Cut(chains, ps, h)[0] <==> y in chains[0] && y != x
  {
    BypassStructure(net, net', head, chains, cur, x, update, ps, h);
    assert x in chains[0];
    HeadOutside(net, head, chains, cur, x);
    forall y
      ensures y in Cut(chains, ps, h)[0] <==> y in chains[0] && y != x
    {
      CutMember(net, head, chains, cur, x, ps, h, 0, y);
    }
  }

  lemma CutChainOk(net: Net, net': Net, head: Node, chains: seq<seq<Node>>, cur: nat, x: Node, update: seq<Node>,
      ps: seq<nat>, h: nat, i: nat)
    requires Target(net, head, chains, cur, x, update, ps) && Height(chains, x, h) && i < |chains|
    requires forall k :: 0 <= k < h ==> ps[k] < |chains[k]| && chains[k][ps[k]] == x
    requires Bypassed(net, net', update, x, h, |net[x].fwd|)
    ensures ChainOk(net' - {x}, head, Cut(chains, ps, h), cur, i)
  {
    CutLinked(net, net', head, chains, cur, x, update, ps, h, i);
    CutSub(net, head, chains, cur, x, ps, h, i);
    CutLevel(net', x, [head] + Cut(chains, ps, h)[i], i);
  }

  lemma CutSub(net: Net, head: Node, chains: seq<seq<Node>>, cur: nat, x: Node, ps: seq<nat>, h: nat, i: nat)
    requires
      && Structure(net, head, chains, cur) && |ps| == |chains| && Height(chains, x, h) && i < |chains| && x in chains[0]
    requires forall k :: 0 <= k < h ==> ps[k] < |chains[k]| && chains[k][ps[k]] == x
    ensures var r := Cut(chains, ps, h);
      && head !in r[i] && x != head && x !in r[i] && (i >= cur ==> r[i] == [])
      && (i > 0 ==> forall y :: y in r[i] ==> y in r[i - 1])
  {
    hide Level, Ascending;
    var r := Cut(chains, ps, h);
    assert ChainOk(net, head, chains, cur, i);
    HeadOutside(net, head, chains, cur, x);
    forall y
      ensures y in r[i] <==> y in chains[i] && y != x
      ensures i > 0 ==> (y in r[i - 1] <==> y in chains[i - 1] && y != x)
    {
      CutMember(net, head, chains, cur, x, ps, h, i, y);
      if i > 0 {
        CutMember(net, head, chains, cur, x, ps, h, i - 1, y);
      }
    }
    assert h > 0;
    assert i >= cur ==> x !in chains[i];
  }

  lemma CutLinked(net: Net, net': Net, head: Node, chains: seq<seq<Node>>, cur: nat, x: Node, update: seq<Node>,
      ps: seq<nat>, h: nat, i: nat)
    requires Target(net, head, chains, cur, x, update, ps) && Height(chains, x, h) && i < |chains|
    requires forall k :: 0 <= k < h ==> ps[k] < |chains[k]| && chains[k][ps[k]] == x
    requires Bypassed(net, net', update, x, h, |net[x].fwd|)
    ensures var c := Cut(chains, ps, h)[i]; Ascending(c) && Level(net', [head] + c, i)
  {
    assert ChainOk(net, head, chains, cur, i);
    if i < h {
      FullDistinct(head, chains[i]);
      BypassLevel(net, net', [head] + chains[i], ps[i], update, h, i);
      assert Without([head] + chains[i], ps[i] + 1) == [head] + Without(chains[i], ps[i]);
      WithoutAscending(chains[i], ps[i]);
    } else {
      BypassOther(net, net', head, chains, cur, x, update, ps, h, i);
    }
  }

  lemma CutMember(net: Net, head: Node, chains: seq<seq<Node>>, cur: nat, x: Node, ps: seq<nat>, h: nat, i: nat,
      y: Node)
    requires Structure(net, head, chains, cur) && |ps| == |chains| && Height(chains, x, h) && i < |chains|
    requires forall k :: 0 <= k < h ==> ps[k] < |chains[k]| && chains[k][ps[k]] == x
    ensures y in Cut(chains, ps, h)[i] <==> y in chains[i] && y != x
  {
    assert ChainOk(net, head, chains, cur, i);
    if i < h {
      WithoutMember(chains[i], ps[i], y);
    }
  }

  /** Dropping a node that is not on a level leaves the level linked. */
  lemma CutLevel(net: Net, x: Node, full: seq<Node>, i: nat)
    requires Level(net, full, i) && x !in full
    ensures Level(net - {x}, full, i)
  {
    forall j | 0 <= j < |full|
      ensures LinkedAt(net - {x}, full, i, j)
    {
      assert LinkedAt(net, full, i, j);
    }
  }

  lemma CutTowers(net: Net, net': Net, head: Node, chains: seq<seq<Node>>, cur: nat, x: Node, update: seq<Node>,
      ps: seq<nat>, h: nat)
    requires Target(net, head, chains, cur, x, update, ps) && Height(chains, x, h)
    requires forall k :: 0 <= k < h ==> ps[k] < |chains[k]| && chains[k][ps[k]] == x
    requires Bypassed(net, net', update, x, h, |net[x].fwd|)
    ensures forall y :: y in Cut(chains, ps, h)[0] ==> TowerOk(net' - {x}, Cut(chains, ps, h), y)
  {
    var r := Cut(chains, ps, h);
    forall y | y in r[0]
      ensures TowerOk(net' - {x}, r, y)
    {
      CutMember(net, head, chains, cur, x, ps, h, 0, y);
      HeadOutside(net, head, chains, cur, y);
      assert TowerOk(net, chains, y) && BypassedAt(net, net', update, x, h, |net[x].fwd|, y);
      forall i | 0 <= i < |net[y].fwd| && y !in r[i]
        ensures net'[y].fwd[i] == null && net'[y].bwd[i] == null
      {
        CutMember(net, head, chains, cur, x, ps, h, i, y);
        Around(net, head, chains, cur, x, update, ps, i);
      }
    }
  }

  /** An empty topmost level may be dropped from the current level. */
  lemma LowerCurrent(net: Net, head: Node, chains: seq<seq<Node>>, cur: nat)
    requires Structure(net, head, chains, cur) && cur > 1 && net[head].fwd[cur - 1] == null
    ensures Structure(net, head, chains, cur - 1)
  {
    assert ChainOk(net, head, chains, cur, cur - 1);
    assert LinkedAt(net, [head] + chains[cur - 1], cur - 1, 0);
    var c := cur - 1;
    forall i | 0 <= i < |chains|
      ensures ChainOk(net, head, chains, c, i)
    {
      assert ChainOk(net, head, chains, cur, i);
    }
  }
}
