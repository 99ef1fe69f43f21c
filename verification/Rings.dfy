/** Circular doubly linked lists inside an arena of nodes, and what unlinking and
    relinking one node does to them.  A ring is described by the sequence of node
    indices met when following the links from its first node. */
module Rings {

  /** One arena cell: the horizontal ring, the vertical ring, the column header,
      the column name and (for headers) the number of rows in the column. */
  datatype Node = Node(left: nat, right: nat, up: nat, down: nat, col: nat, name: int, size: int)

  function Succ(i: nat, n: nat): nat
    requires i < n
  {
    if i + 1 == n then 0 else i + 1
  }

  function Pred(i: nat, n: nat): nat
    requires i < n
  {
    if i == 0 then n - 1 else i - 1
  }

  ghost predicate Distinct(xs: seq<nat>) {
    forall i, j :: 0 <= i < j < |xs| ==> xs[i] != xs[j]
  }

  lemma DistinctSnoc(xs: seq<nat>, x: nat)
    ensures Distinct(xs + [x]) <==> Distinct(xs) && x !in xs
  {
    var all := xs + [x];
    assert forall i :: 0 <= i < |xs| ==> all[i] == xs[i];
    assert all[|xs|] == x;
  }

  lemma DistinctAppend(xs: seq<nat>, ys: seq<nat>)
    requires Distinct(xs) && Distinct(ys) && forall y :: y in ys ==> y !in xs
    ensures Distinct(xs + ys)
  {
    var all := xs + ys;
    forall i, j | 0 <= i < j < |all|
      ensures all[i] != all[j]
    {
      if j >= |xs| {
        assert all[j] == ys[j - |xs|] && all[j] in ys;
        assert i < |xs| ==> all[i] in xs;
      }
    }
  }

  lemma DistinctCons(x: nat, xs: seq<nat>)
    requires Distinct(xs) && x !in xs
    ensures Distinct([x] + xs)
  {
    var all := [x] + xs;
    forall i, j | 0 <= i < j < |all|
      ensures all[i] != all[j]
    {
      assert all[j] == xs[j - 1];
      assert i > 0 ==> all[i] == xs[i - 1];
    }
  }

  /** The i-th node of the ring points at the next and the previous one. */
  ghost predicate HLinked(s: seq<Node>, ring: seq<nat>, i: nat)
    requires i < |ring|
  {
    && ring[i] < |s|
    && s[ring[i]].right == ring[Succ(i, |ring|)]
    && s[ring[i]].left == ring[Pred(i, |ring|)]
  }

  /** `ring` is a circular list through right/left. */
  ghost predicate HRing(s: seq<Node>, ring: seq<nat>) {
    forall i :: 0 <= i < |ring| ==> HLinked(s, ring, i)
  }

  /** The i-th node of the ring points at the next and the previous one. */
  ghost predicate VLinked(s: seq<Node>, ring: seq<nat>, i: nat)
    requires i < |ring|
  {
    && ring[i] < |s|
    && s[ring[i]].down == ring[Succ(i, |ring|)]
    && s[ring[i]].up == ring[Pred(i, |ring|)]
  }

  /** `ring` is a circular list through down/up. */
  ghost predicate VRing(s: seq<Node>, ring: seq<nat>) {
    forall i :: 0 <= i < |ring| ==> VLinked(s, ring, i)
  }

  /** Node j has vertical neighbours other than itself, and a column. */
  predicate CanV(s: seq<Node>, j: nat) {
    && j < |s| && s[j].down < |s| && s[j].up < |s| && s[j].col < |s|
    && s[j].down != j && s[j].up != j
  }

  /** Node c has horizontal neighbours other than itself. */
  predicate CanH(s: seq<Node>, c: nat) {
    && c < |s| && s[c].right < |s| && s[c].left < |s|
    && s[c].right != c && s[c].left != c
  }

  /** Takes node j out of its vertical ring and decrements its column's size. */
  function UnlinkV(s: seq<Node>, j: nat): (t: seq<Node>)
    requires CanV(s, j)
    ensures |t| == |s|
  {
    var s1 := s[s[j].down := s[s[j].down].(up := s[j].up)];
    var s2 := s1[s1[j].up := s1[s1[j].up].(down := s1[j].down)];
    s2[s2[j].col := s2[s2[j].col].(size := s2[s2[j].col].size - 1)]
  }

  /** Puts node j back between the neighbours it still remembers. */
  function RelinkV(s: seq<Node>, j: nat): (t: seq<Node>)
    requires CanV(s, j)
    ensures |t| == |s|
  {
    var s1 := s[s[j].col := s[s[j].col].(size := s[s[j].col].size + 1)];
    var s2 := s1[s1[j].down := s1[s1[j].down].(up := j)];
    s2[s2[j].up := s2[s2[j].up].(down := j)]
  }

  /** Takes header c out of the header ring. */
  function UnlinkH(s: seq<Node>, c: nat): (t: seq<Node>)
    requires CanH(s, c)
    ensures |t| == |s|
  {
    var s1 := s[s[c].right := s[s[c].right].(left := s[c].left)];
    s1[s1[c].left := s1[s1[c].left].(right := s1[c].right)]
  }

  function RelinkH(s: seq<Node>, c: nat): (t: seq<Node>)
    requires CanH(s, c)
    ensures |t| == |s|
  {
    var s1 := s[s[c].right := s[s[c].right].(left := c)];
    s1[s1[c].left := s1[s1[c].left].(right := c)]
  }

  ghost function Without(ring: seq<nat>, p: nat): (r: seq<nat>)
    requires p < |ring|
  {
    ring[..p] + ring[p + 1..]
  }

  lemma WithoutCons(h: nat, ring: seq<nat>, p: nat)
    requires p < |ring|
    ensures Without([h] + ring, p + 1) == [h] + Without(ring, p)
  {
    assert ([h] + ring)[..p + 1] == [h] + ring[..p];
    assert ([h] + ring)[p + 2..] == ring[p + 1..];
  }

  /** The nodes next to ring[p], p not the first, are other nodes that point back at it. */
  lemma NeighboursV(s: seq<Node>, ring: seq<nat>, p: nat)
    requires VRing(s, ring) && Distinct(ring) && 1 <= p < |ring| && ring[p] < |s| && s[ring[p]].col < |s|
    ensures var j := ring[p];
      && CanV(s, j)
      && s[s[j].down].up == j && s[s[j].up].down == j
      && s[j].down in ring && s[j].up in ring
  {
    var n := |ring|;
    var q := Succ(p, n);
    assert VLinked(s, ring, p) && VLinked(s, ring, q) && VLinked(s, ring, p - 1);
    assert Pred(q, n) == p && Succ(p - 1, n) == p;
  }

  lemma NeighboursH(s: seq<Node>, ring: seq<nat>, p: nat)
    requires HRing(s, ring) && Distinct(ring) && 1 <= p < |ring| && ring[p] < |s|
    ensures var j := ring[p];
      && CanH(s, j)
      && s[s[j].right].left == j && s[s[j].left].right == j
      && s[j].right in ring && s[j].left in ring
  {
    var n := |ring|;
    var q := Succ(p, n);
    assert HLinked(s, ring, p) && HLinked(s, ring, q) && HLinked(s, ring, p - 1);
    assert Pred(q, n) == p && Succ(p - 1, n) == p;
  }

  /** Relinking right after unlinking restores every field of every node. */
  lemma RelinkUndoesUnlinkV(s: seq<Node>, j: nat)
    requires CanV(s, j)
    requires s[s[j].down].up == j && s[s[j].up].down == j
    ensures var t := UnlinkV(s, j);
      CanV(t, j) && RelinkV(t, j) == s
  {
    var t := UnlinkV(s, j);
    var r := RelinkV(t, j);
    forall i | 0 <= i < |s|
      ensures r[i] == s[i]
    {
    }
  }

  lemma RelinkUndoesUnlinkH(s: seq<Node>, c: nat)
    requires CanH(s, c)
    requires s[s[c].right].left == c && s[s[c].left].right == c
    ensures var t := UnlinkH(s, c);
      CanH(t, c) && RelinkH(t, c) == s
  {
    var t := UnlinkH(s, c);
    var r := RelinkH(t, c);
    forall i | 0 <= i < |s|
      ensures r[i] == s[i]
    {
    }
  }

  /** What UnlinkV leaves alone: everything but the neighbours' vertical links and a size. */
  lemma UnlinkVFrame(s: seq<Node>, j: nat)
    requires CanV(s, j)
    ensures var t := UnlinkV(s, j);
      forall i :: 0 <= i < |s| ==>
        && t[i].left == s[i].left && t[i].right == s[i].right
        && t[i].col == s[i].col && t[i].name == s[i].name
        && t[i].size == (if i == s[j].col then s[i].size - 1 else s[i].size)
        && t[i].up == (if i == s[j].down then s[j].up else s[i].up)
        && t[i].down == (if i == s[j].up then s[j].down else s[i].down)
  {
  }

  /** What UnlinkH leaves alone. */
  lemma UnlinkHFrame(s: seq<Node>, c: nat)
    requires CanH(s, c)
    ensures var t := UnlinkH(s, c);
      forall i :: 0 <= i < |s| ==>
        && t[i].up == s[i].up && t[i].down == s[i].down
        && t[i].col == s[i].col && t[i].name == s[i].name && t[i].size == s[i].size
        && t[i].left == (if i == s[c].right then s[c].left else s[i].left)
        && t[i].right == (if i == s[c].left then s[c].right else s[i].right)
  {
  }

  /** Where the neighbours of a remaining position lie in the original ring. */
  lemma WithoutNeighbours(ring: seq<nat>, p: nat, k: nat)
    requires Distinct(ring) && 1 <= p < |ring| && k < |ring| && k != p
    ensures var n := |ring|;
      var w := Without(ring, p);
      var i := if k < p then k else k - 1;
      && i < n - 1 && w[i] == ring[k]
      && w[Succ(i, n - 1)] == (if k == p - 1 then ring[Succ(p, n)] else ring[Succ(k, n)])
      && w[Pred(i, n - 1)] == (if k == Succ(p, n) then ring[p - 1] else ring[Pred(k, n)])
  {
  }

  /** Rewriting the two neighbours of the p-th node leaves the vertical ring without it. */
  lemma BypassV(s: seq<Node>, t: seq<Node>, ring: seq<nat>, p: nat)
    requires VRing(s, ring) && Distinct(ring) && 1 <= p < |ring| && |t| == |s| && ring[p] < |s|
    requires forall i :: 0 <= i < |s| ==>
      && t[i].up == (if i == s[ring[p]].down then s[ring[p]].up else s[i].up)
      && t[i].down == (if i == s[ring[p]].up then s[ring[p]].down else s[i].down)
    ensures VRing(t, Without(ring, p))
  {
    var w, n := Without(ring, p), |ring|;
    assert VLinked(s, ring, p);
    forall i | 0 <= i < |w|
      ensures VLinked(t, w, i)
    {
      var k := if i < p then i else i + 1;
      WithoutNeighbours(ring, p, k);
      assert VLinked(s, ring, k);
    }
  }

  lemma BypassH(s: seq<Node>, t: seq<Node>, ring: seq<nat>, p: nat)
    requires HRing(s, ring) && Distinct(ring) && 1 <= p < |ring| && |t| == |s| && ring[p] < |s|
    requires forall i :: 0 <= i < |s| ==>
      && t[i].left == (if i == s[ring[p]].right then s[ring[p]].left else s[i].left)
      && t[i].right == (if i == s[ring[p]].left then s[ring[p]].right else s[i].right)
    ensures HRing(t, Without(ring, p))
  {
    var w, n := Without(ring, p), |ring|;
    assert HLinked(s, ring, p);
    forall i | 0 <= i < |w|
      ensures HLinked(t, w, i)
    {
      var k := if i < p then i else i + 1;
      WithoutNeighbours(ring, p, k);
      assert HLinked(s, ring, k);
    }
  }

  /** Unlinking the p-th node of a vertical ring leaves the ring without it. */
  lemma UnlinkVRing(s: seq<Node>, ring: seq<nat>, p: nat)
    requires VRing(s, ring) && Distinct(ring) && 1 <= p < |ring| && ring[p] < |s| && s[ring[p]].col < |s|
    ensures var j := ring[p];
      && CanV(s, j)
      && VRing(UnlinkV(s, j), Without(ring, p))
  {
    NeighboursV(s, ring, p);
    UnlinkVFrame(s, ring[p]);
    BypassV(s, UnlinkV(s, ring[p]), ring, p);
  }

  lemma UnlinkHRing(s: seq<Node>, ring: seq<nat>, p: nat)
    requires HRing(s, ring) && Distinct(ring) && 1 <= p < |ring| && ring[p] < |s|
    ensures var j := ring[p];
      && CanH(s, j)
      && HRing(UnlinkH(s, j), Without(ring, p))
  {
    NeighboursH(s, ring, p);
    UnlinkHFrame(s, ring[p]);
    BypassH(s, UnlinkH(s, ring[p]), ring, p);
  }

  /** A ring none of whose nodes changed its vertical links is still a ring. */
  lemma VRingFrame(s: seq<Node>, t: seq<Node>, ring: seq<nat>)
    requires VRing(s, ring) && |s| == |t|
    requires forall x :: x in ring && x < |s| ==> t[x].up == s[x].up && t[x].down == s[x].down
    ensures VRing(t, ring)
  {
    forall i | 0 <= i < |ring|
      ensures VLinked(t, ring, i)
    {
      assert VLinked(s, ring, i) && ring[i] in ring;
    }
  }

  lemma HRingFrame(s: seq<Node>, t: seq<Node>, ring: seq<nat>)
    requires HRing(s, ring) && |s| == |t|
    requires forall x :: x in ring && x < |s| ==> t[x].left == s[x].left && t[x].right == s[x].right
    ensures HRing(t, ring)
  {
    forall i | 0 <= i < |ring|
      ensures HLinked(t, ring, i)
    {
      assert HLinked(s, ring, i) && ring[i] in ring;
    }
  }

  /** The subsequence of xs outside `gone`. */
  ghost function Keep(xs: seq<nat>, gone: set<nat>): (r: seq<nat>)
    ensures forall x :: x in r <==> x in xs && x !in gone
  {
    if xs == [] then [] else (if xs[0] in gone then [] else [xs[0]]) + Keep(xs[1..], gone)
  }

  lemma {:induction false} KeepDistinct(xs: seq<nat>, gone: set<nat>)
    requires Distinct(xs)
    ensures Distinct(Keep(xs, gone))
  {
    if xs != [] {
      KeepDistinct(xs[1..], gone);
      assert xs[0] !in xs[1..];
    }
  }

  lemma {:induction false} KeepSame(xs: seq<nat>, g: set<nat>, h: set<nat>)
    requires forall x :: x in xs ==> (x in g <==> x in h)
    ensures Keep(xs, g) == Keep(xs, h)
  {
    if xs != [] {
      KeepSame(xs[1..], g, h);
    }
  }

  /** Dropping one more node removes exactly that node from the subsequence. */
  lemma {:induction false} KeepDrop(xs: seq<nat>, gone: set<nat>, p: nat)
    requires Distinct(xs) && p < |Keep(xs, gone)|
    ensures Keep(xs, gone + {Keep(xs, gone)[p]}) == Without(Keep(xs, gone), p)
  {
    var l, tl := Keep(xs, gone), Keep(xs[1..], gone);
    var more := gone + {l[p]};
    if xs[0] in gone {
      assert l == tl;
      KeepDrop(xs[1..], gone, p);
      assert Keep(xs, more) == Keep(xs[1..], more);
    } else {
      assert l == [xs[0]] + tl && xs[0] !in xs[1..];
      if p == 0 {
        KeepSame(xs[1..], gone, more);
        assert Keep(xs, more) == tl;
      } else {
        assert tl[p - 1] == l[p];
        KeepDrop(xs[1..], gone, p - 1);
        assert xs[0] !in more by {
          assert l[p] in tl;
        }
        WithoutCons(xs[0], tl, p - 1);
      }
    }
  }
}
