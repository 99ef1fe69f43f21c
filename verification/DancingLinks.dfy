/** Exact cover by dancing links: covering and uncovering columns, and the
    backtracking search (muduo's sudoku example). */
module DancingLinks {
  import opened Rings

  /** The fixed layout of a sparse 0/1 matrix in the arena: column headers in ring
      order, the nodes of every row, where each node lies, and the nodes of every
      column from top to bottom.  Node 0 is the root of the header ring. */
  datatype Shape = Shape(
    n: nat,
    cols: seq<nat>,
    rows: seq<seq<nat>>,
    rowOf: map<nat, nat>,
    posOf: map<nat, nat>,
    colOf: map<nat, nat>,
    nameOf: map<nat, int>,
    members: map<nat, seq<nat>>)
  {
    ghost predicate NodeOk(x: nat) {
      && x in rowOf && x in posOf && x in colOf
      && 0 < x < n && x !in cols
      && rowOf[x] < |rows| && posOf[x] < |rows[rowOf[x]]|
      && rows[rowOf[x]][posOf[x]] == x
      && colOf[x] in cols && colOf[x] in members && x in members[colOf[x]]
    }

    ghost predicate RowOk(r: nat)
      requires r < |rows|
    {
      && (forall p :: 0 <= p < |rows[r]| ==> PlaceOk(r, p))
      && (forall p, q :: 0 <= p < |rows[r]| && 0 <= q < |rows[r]| && p != q ==>
            PlaceOk(r, p) && PlaceOk(r, q) && colOf[rows[r][p]] != colOf[rows[r][q]])
    }

    ghost predicate PlaceOk(r: nat, p: nat)
      requires r < |rows| && p < |rows[r]|
    {
      var x := rows[r][p];
      x in rowOf && x in posOf && x in colOf && rowOf[x] == r && posOf[x] == p
    }

    ghost predicate ColumnShapeOk(c: nat) {
      && 0 < c < n && c in members && Distinct(members[c])
      && forall x :: x in members[c] ==> x in colOf && colOf[x] == c && x in rowOf
    }

    ghost predicate Ok() {
      && n > 0
      && Distinct(cols)
      && (forall c :: c in cols ==> ColumnShapeOk(c))
      && (forall x :: x in rowOf ==> NodeOk(x))
      && (forall r :: 0 <= r < |rows| ==> RowOk(r))
      && (forall x :: x in nameOf ==> x < n)
    }

    ghost function Cols(): set<nat> {
      set c | c in cols
    }
  }

  /** A well-formed layout. */
  type Layout = m: Shape | m.Ok() ghost witness Shape(1, [], [], map[], map[], map[], map[], map[])

  /** The columns in which row r has a one. */
  ghost function RowCols(m: Layout, r: nat): (s: set<nat>)
    requires r < |m.rows|
  {
    assert m.RowOk(r);
    set p | 0 <= p < |m.rows[r]| && m.PlaceOk(r, p) :: m.colOf[m.rows[r][p]]
  }

  /** Row nodes whose row has a one outside the columns `a`. */
  ghost function Gone(m: Layout, a: set<nat>): set<nat> {
    set x | x in m.rowOf && m.NodeOk(x) && !(RowCols(m, m.rowOf[x]) <= a)
  }

  /** The other nodes of x's row, in right order from x. */
  ghost function Others(m: Layout, x: nat): seq<nat>
    requires x in m.rowOf
  {
    assert m.NodeOk(x);
    m.rows[m.rowOf[x]][m.posOf[x] + 1..] + m.rows[m.rowOf[x]][..m.posOf[x]]
  }

  /** Fields that covering never changes. */
  ghost predicate Fixed(m: Layout, s: seq<Node>) {
    && m.n <= |s|
    && (forall r :: 0 <= r < |m.rows| ==> HRing(s, m.rows[r]))
    && (forall x :: x in m.rowOf ==> x in m.colOf && x < |s| && s[x].col == m.colOf[x])
    && (forall x :: x in m.nameOf ==> x < |s| && s[x].name == m.nameOf[x])
  }

  /** Column c is a vertical ring of its members outside `gone`, and counts them. */
  ghost predicate ColumnOk(m: Layout, s: seq<Node>, c: nat, gone: set<nat>) {
    && c in m.members && c < |s|
    && VRing(s, [c] + Keep(m.members[c], gone))
    && s[c].size == |Keep(m.members[c], gone)|
  }

  ghost function Headers(m: Layout, a: set<nat>): seq<nat> {
    [0] + Keep(m.cols, m.Cols() - a)
  }

  /** The arena when exactly the columns `a` are uncovered: the header ring lists them,
      and each of them lists exactly the rows that lie inside `a`. */
  ghost predicate Canonical(m: Layout, s: seq<Node>, a: set<nat>)
  {
    && Fixed(m, s)
    && a <= m.Cols()
    && HRing(s, Headers(m, a))
    && forall c :: c in a ==> ColumnOk(m, s, c, Gone(m, a))
  }

  // ------------------------------------------------------------ layout facts

  lemma RowColsOf(m: Layout, x: nat)
    requires x in m.rowOf
    ensures m.NodeOk(x) && m.colOf[x] in RowCols(m, m.rowOf[x])
  {
    assert m.NodeOk(x) && m.RowOk(m.rowOf[x]) && m.PlaceOk(m.rowOf[x], m.posOf[x]);
  }

  /** A row has at most one node in a column. */
  lemma OnePerColumn(m: Layout, x: nat, y: nat)
    requires x in m.rowOf && y in m.rowOf && m.NodeOk(x) && m.NodeOk(y)
    requires m.rowOf[x] == m.rowOf[y] && m.colOf[x] == m.colOf[y]
    ensures x == y
  {
    assert m.RowOk(m.rowOf[x]);
  }

  lemma OthersOk(m: Layout, x: nat, y: nat)
    requires x in m.rowOf && y in Others(m, x)
    ensures y in m.rowOf && m.rowOf[y] == m.rowOf[x] && y != x && m.colOf[y] != m.colOf[x]
  {
    var r, p := m.rowOf[x], m.posOf[x];
    assert m.RowOk(r);
    var q :| 0 <= q < |Others(m, x)| && Others(m, x)[q] == y;
    var k := if q < |m.rows[r]| - p - 1 then p + 1 + q else q - (|m.rows[r]| - p - 1);
    assert m.rows[r][k] == y && k != p && m.PlaceOk(r, k) && m.PlaceOk(r, p);
  }

  lemma OthersAll(m: Layout, x: nat, y: nat)
    requires x in m.rowOf && y in m.rowOf
    requires m.rowOf[y] == m.rowOf[x] && y != x
    ensures y in Others(m, x)
  {
    var r, p, k := m.rowOf[x], m.posOf[x], m.posOf[y];
    var o := Others(m, x);
    assert k != p;
    if k > p {
      assert o[k - p - 1] == y;
    } else {
      assert o[|m.rows[r]| - p - 1 + k] == y;
    }
  }

  lemma OthersDistinct(m: Layout, x: nat)
    requires x in m.rowOf
    ensures Distinct(Others(m, x))
  {
    var r, p := m.rowOf[x], m.posOf[x];
    var o := Others(m, x);
    var e := |m.rows[r]| - p - 1;
    assert m.RowOk(r);
    forall i, j | 0 <= i < j < |o|
      ensures o[i] != o[j]
    {
      var ki := if i < e then p + 1 + i else i - e;
      var kj := if j < e then p + 1 + j else j - e;
      assert o[i] == m.rows[r][ki] && o[j] == m.rows[r][kj] && ki != kj;
      assert m.PlaceOk(r, ki) && m.PlaceOk(r, kj);
    }
  }

  /** Following right (left) from x walks through Others(x) forwards (backwards). */
  lemma OthersWalk(m: Layout, s: seq<Node>, x: nat, q: nat)
    requires Fixed(m, s) && x in m.rowOf && q <= |Others(m, x)|
    ensures var o := Others(m, x);
      && x < |s|
      && (q == 0 ==> s[x].right == (if o == [] then x else o[0]))
      && (q == 0 ==> s[x].left == (if o == [] then x else o[|o| - 1]))
      && (q < |o| ==> o[q] < |s| && s[o[q]].right == (if q + 1 < |o| then o[q + 1] else x))
      && (q < |o| ==> s[o[q]].left == (if q == 0 then x else o[q - 1]))
  {
    var r, p := m.rowOf[x], m.posOf[x];
    var o, ring := Others(m, x), m.rows[m.rowOf[x]];
    var e := |ring| - p - 1;
    assert HRing(s, ring);
    assert HLinked(s, ring, p);
    if q < |o| {
      var k := if q < e then p + 1 + q else q - e;
      assert o[q] == ring[k] && HLinked(s, ring, k);
    }
  }

  /** A header node is not a row node, and members of different columns are different. */
  lemma RingMember(m: Layout, c: nat, gone: set<nat>, x: nat)
    requires c in m.cols && x in [c] + Keep(m.members[c], gone)
    ensures x < m.n && (x == c || (x in m.rowOf && x in m.colOf && m.colOf[x] == c && x !in m.cols))
  {
    if x != c {
      assert x in m.members[c];
      assert m.NodeOk(x);
    }
  }

  lemma ColumnsApart(m: Layout, c: nat, d: nat, gone: set<nat>, x: nat)
    requires c in m.cols && d in m.cols && c != d
    requires x in [c] + Keep(m.members[c], gone)
    ensures x !in [d] + Keep(m.members[d], gone)
  {
    RingMember(m, c, gone, x);
    if x in [d] + Keep(m.members[d], gone) {
      RingMember(m, d, gone, x);
    }
  }

  lemma ColumnRingDistinct(m: Layout, c: nat, gone: set<nat>)
    requires c in m.cols
    ensures Distinct([c] + Keep(m.members[c], gone))
  {
    KeepDistinct(m.members[c], gone);
    forall x | x in Keep(m.members[c], gone)
      ensures x != c
    {
      assert m.NodeOk(x);
    }
    DistinctCons(c, Keep(m.members[c], gone));
  }

  // ------------------------------------------------------------ one unlink

  lemma PositionOf(m: Layout, s: seq<Node>, c: nat, gone: set<nat>, j: nat) returns (p: nat)
    requires j in m.rowOf && m.colOf[j] == c && j !in gone
    ensures p < |Keep(m.members[c], gone)| && Keep(m.members[c], gone)[p] == j
  {
    assert j in Keep(m.members[c], gone);
    p :| 0 <= p < |Keep(m.members[c], gone)| && Keep(m.members[c], gone)[p] == j;
  }

  /** Unlinking row node j from its own column. */
  lemma UnlinkOwn(m: Layout, s: seq<Node>, gone: set<nat>, j: nat)
    requires Fixed(m, s) && j in m.rowOf && j !in gone
    requires ColumnOk(m, s, m.colOf[j], gone)
    ensures CanV(s, j) && s[s[j].down].up == j && s[s[j].up].down == j
    ensures ColumnOk(m, UnlinkV(s, j), m.colOf[j], gone + {j})
    ensures s[j].down in [m.colOf[j]] + Keep(m.members[m.colOf[j]], gone)
    ensures s[j].up in [m.colOf[j]] + Keep(m.members[m.colOf[j]], gone)
  {
    hide UnlinkV, VRing;
    var c := m.colOf[j];
    var l := Keep(m.members[c], gone);
    var p := PositionOf(m, s, c, gone, j);
    assert m.ColumnShapeOk(c);
    ColumnRingDistinct(m, c, gone);
    var ring := [c] + l;
    assert ring[p + 1] == j;
    NeighboursV(s, ring, p + 1);
    UnlinkVRing(s, ring, p + 1);
    UnlinkVFrame(s, j);
    WithoutCons(c, l, p);
    KeepDrop(m.members[c], gone, p);
  }

  /** Unlinking row node j does not disturb any other column. */
  lemma UnlinkOther(m: Layout, s: seq<Node>, gone: set<nat>, j: nat, d: nat)
    requires Fixed(m, s) && j in m.rowOf && d in m.cols && d != m.colOf[j]
    requires CanV(s, j) && ColumnOk(m, s, d, gone)
    requires s[j].down in [m.colOf[j]] + Keep(m.members[m.colOf[j]], gone)
    requires s[j].up in [m.colOf[j]] + Keep(m.members[m.colOf[j]], gone)
    ensures ColumnOk(m, UnlinkV(s, j), d, gone + {j})
  {
    hide UnlinkV, VRing, Keep;
    var c := m.colOf[j];
    assert m.ColumnShapeOk(c) && m.ColumnShapeOk(d);
    UnlinkVFrame(s, j);
    var ring := [d] + Keep(m.members[d], gone);
    ColumnsApart(m, c, d, gone, s[j].down);
    ColumnsApart(m, c, d, gone, s[j].up);
    VRingFrame(s, UnlinkV(s, j), ring);
    assert j !in m.members[d];
    KeepSame(m.members[d], gone, gone + {j});
  }

  lemma UnlinkFixed(m: Layout, s: seq<Node>, j: nat)
    requires Fixed(m, s) && CanV(s, j)
    ensures Fixed(m, UnlinkV(s, j))
  {
    UnlinkVFrame(s, j);
    forall r | 0 <= r < |m.rows|
      ensures HRing(UnlinkV(s, j), m.rows[r])
    {
      HRingFrame(s, UnlinkV(s, j), m.rows[r]);
    }
  }

  /** The arena part way through covering column c of the columns `a`: the header is
      already out, and the nodes `gone` are out of their columns. */
  ghost predicate Partial(m: Layout, s: seq<Node>, a: set<nat>, c: nat, gone: set<nat>) {
    && Fixed(m, s)
    && HRing(s, Headers(m, a - {c}))
    && (forall d :: d in a ==> ColumnOk(m, s, d, gone))
  }

  lemma UnlinkStep(m: Layout, s: seq<Node>, a: set<nat>, c: nat, gone: set<nat>, j: nat)
    requires a <= m.Cols() && Partial(m, s, a, c, gone)
    requires j in m.rowOf && m.colOf[j] in a && j !in gone
    ensures CanV(s, j) && s[s[j].down].up == j && s[s[j].up].down == j
    ensures Partial(m, UnlinkV(s, j), a, c, gone + {j})
  {
    assert ColumnOk(m, s, m.colOf[j], gone);
    UnlinkOwn(m, s, gone, j);
    UnlinkFixed(m, s, j);
    UnlinkVFrame(s, j);
    HRingFrame(s, UnlinkV(s, j), Headers(m, a - {c}));
    forall d | d in a
      ensures ColumnOk(m, UnlinkV(s, j), d, gone + {j})
    {
      assert ColumnOk(m, s, d, gone);
      if d != m.colOf[j] {
        UnlinkOther(m, s, gone, j, d);
      }
    }
  }

  // ------------------------------------------------------------ covering a column

  ghost function UnlinkAll(s: seq<Node>, js: seq<nat>): (t: seq<Node>)
    ensures |t| == |s|
  {
    if js == [] then s else
      var t := UnlinkAll(s, js[..|js| - 1]);
      var j := js[|js| - 1];
      if CanV(t, j) then UnlinkV(t, j) else t
  }

  /** The row nodes that covering a column with the rows of `l` unlinks, in order. */
  ghost function Sweep(m: Layout, l: seq<nat>): seq<nat>
    requires forall x :: x in l ==> x in m.rowOf
  {
    if l == [] then [] else Sweep(m, l[..|l| - 1]) + Others(m, l[|l| - 1])
  }

  ghost predicate PlanOk(m: Layout, a: set<nat>, c: nat, js: seq<nat>)
  {
    && Distinct(js)
    && forall j :: j in js ==> j in m.rowOf && m.colOf[j] in a && m.colOf[j] != c && j !in Gone(m, a)
  }

  ghost function ToSet(js: seq<nat>): set<nat> {
    set j | j in js
  }

  lemma UnionSnoc(g: set<nat>, js: seq<nat>, j: nat)
    ensures g + ToSet(js) + {j} == g + ToSet(js + [j])
  {
  }

  /** After any part of the sweep, the remaining nodes still form rings. */
  lemma {:induction false} UnlinkAllPartial(m: Layout, s: seq<Node>, a: set<nat>, c: nat, js: seq<nat>)
    requires a <= m.Cols() && Partial(m, s, a, c, Gone(m, a)) && PlanOk(m, a, c, js)
    ensures Partial(m, UnlinkAll(s, js), a, c, Gone(m, a) + ToSet(js))
  {
    if js == [] {
      assert Gone(m, a) + ToSet(js) == Gone(m, a);
    } else {
      var front, j := js[..|js| - 1], js[|js| - 1];
      assert js == front + [j] && j in js;
      DistinctSnoc(front, j);
      assert forall y :: y in front ==> y in js;
      UnlinkAllPartial(m, s, a, c, front);
      UnlinkStep(m, UnlinkAll(s, front), a, c, Gone(m, a) + ToSet(front), j);
      UnionSnoc(Gone(m, a), front, j);
    }
  }

  /** Relinking the last unlinked node steps the arena back by exactly one unlink. */
  lemma RelinkLast(m: Layout, s: seq<Node>, a: set<nat>, c: nat, js: seq<nat>, j: nat)
    requires a <= m.Cols() && Partial(m, s, a, c, Gone(m, a)) && PlanOk(m, a, c, js + [j])
    ensures var t := UnlinkAll(s, js + [j]);
      && CanV(UnlinkAll(s, js), j) && t == UnlinkV(UnlinkAll(s, js), j)
      && CanV(t, j) && RelinkV(t, j) == UnlinkAll(s, js)
  {
    var all := js + [j];
    assert all[..|all| - 1] == js && j in all;
    DistinctSnoc(js, j);
    assert forall y :: y in js ==> y in all;
    UnlinkAllPartial(m, s, a, c, js);
    UnlinkStep(m, UnlinkAll(s, js), a, c, Gone(m, a) + ToSet(js), j);
    RelinkUndoesUnlinkV(UnlinkAll(s, js), j);
  }

  /** The members of column c that are still linked when the columns `a` are uncovered. */
  ghost function Linked(m: Layout, a: set<nat>, c: nat): (l: seq<nat>)
    requires c in m.cols
    ensures forall x :: x in l ==> x in m.rowOf && m.colOf[x] == c && x !in Gone(m, a)
    ensures forall x :: x in l ==> RowCols(m, m.rowOf[x]) <= a
    ensures c !in l
  {
    var l := Keep(m.members[c], Gone(m, a));
    assert forall x :: x in l ==> x in m.members[c];
    assert m.ColumnShapeOk(c);
    assert c in l ==> m.NodeOk(c);
    l
  }

  lemma {:induction false} SweepMember(m: Layout, l: seq<nat>, y: nat)
    requires forall x :: x in l ==> x in m.rowOf
    ensures y in Sweep(m, l) <==> exists i :: 0 <= i < |l| && l[i] in m.rowOf && y in Others(m, l[i])
  {
    if l != [] {
      var front, x := l[..|l| - 1], l[|l| - 1];
      assert l == front + [x];
      SweepMember(m, front, y);
      if y in Sweep(m, l) && y !in Others(m, x) {
        var i :| 0 <= i < |front| && front[i] in m.rowOf && y in Others(m, front[i]);
        assert l[i] == front[i];
      }
      if i :| 0 <= i < |l| && l[i] in m.rowOf && y in Others(m, l[i]) {
        assert i < |front| ==> front[i] == l[i];
      }
    }
  }

  /** Rows of distinct nodes of one column are distinct, so a sweep never meets a node twice. */
  lemma {:induction false} SweepPlan(m: Layout, a: set<nat>, c: nat, l: seq<nat>, x: nat, q: nat)
    requires Distinct(l + [x])
    requires forall y :: y in l + [x] ==> y in m.rowOf && m.colOf[y] == c && RowCols(m, m.rowOf[y]) <= a
    requires x in l + [x] && q <= |Others(m, x)|
    ensures forall y :: y in l ==> y in m.rowOf
    ensures PlanOk(m, a, c, Sweep(m, l) + Others(m, x)[..q])
    decreases |l|
  {
    assert forall y :: y in l ==> y in l + [x];
    DistinctSnoc(l, x);
    SweepWhole(m, a, c, l);
    var o := Others(m, x)[..q];
    OthersDistinct(m, x);
    forall y | y in o
      ensures y in m.rowOf && m.colOf[y] in a && m.colOf[y] != c && y !in Gone(m, a) && y !in Sweep(m, l)
    {
      assert y in Others(m, x);
      OthersOk(m, x, y);
      RowColsOf(m, y);
      SweepMember(m, l, y);
      if y in Sweep(m, l) {
        var i :| 0 <= i < |l| && l[i] in m.rowOf && y in Others(m, l[i]);
        OthersOk(m, l[i], y);
        OnePerColumn(m, x, l[i]);
        assert false;
      }
    }
    DistinctAppend(Sweep(m, l), o);
  }

  lemma {:induction false} SweepWhole(m: Layout, a: set<nat>, c: nat, l: seq<nat>)
    requires Distinct(l)
    requires forall y :: y in l ==> y in m.rowOf && m.colOf[y] == c && RowCols(m, m.rowOf[y]) <= a
    ensures PlanOk(m, a, c, Sweep(m, l))
    decreases |l|, 0
  {
    if l != [] {
      var front, x := l[..|l| - 1], l[|l| - 1];
      assert l == front + [x];
      SweepPlan(m, a, c, front, x, |Others(m, x)|);
      assert Others(m, x)[..|Others(m, x)|] == Others(m, x);
    }
  }

  lemma ColumnsPositive(m: Layout)
    ensures forall c :: c in m.cols ==> 0 < c < m.n
  {
    assert forall c :: c in m.cols ==> m.ColumnShapeOk(c);
  }

  lemma HeaderPosition(m: Layout, a: set<nat>, c: nat) returns (p: nat)
    requires c in a && a <= m.Cols()
    ensures 1 <= p < |Headers(m, a)| && Headers(m, a)[p] == c && Distinct(Headers(m, a))
    ensures Headers(m, a - {c}) == Without(Headers(m, a), p)
  {
    ColumnsPositive(m);
    var off := m.Cols() - a;
    var k := KeepPosition(m.cols, off, c);
    hide Shape.Ok, Without, Distinct;
    assert off + {c} == m.Cols() - (a - {c});
    p := k + 1;
  }

  lemma KeepPosition(xs: seq<nat>, off: set<nat>, c: nat) returns (k: nat)
    requires Distinct(xs) && c in xs && c !in off && 0 !in xs
    ensures k < |Keep(xs, off)| && ([0] + Keep(xs, off))[k + 1] == c && Distinct([0] + Keep(xs, off))
    ensures [0] + Keep(xs, off + {c}) == Without([0] + Keep(xs, off), k + 1)
  {
    var l := Keep(xs, off);
    assert c in l;
    k :| 0 <= k < |l| && l[k] == c;
    KeepDistinct(xs, off);
    DistinctCons(0, l);
    KeepDrop(xs, off, k);
    WithoutCons(0, l, k);
  }

  /** Taking header c out of the header ring. */
  lemma CoverHeader(m: Layout, s: seq<Node>, a: set<nat>, c: nat)
    requires Canonical(m, s, a) && c in a
    ensures CanH(s, c) && s[s[c].right].left == c && s[s[c].left].right == c
    ensures Partial(m, UnlinkH(s, c), a, c, Gone(m, a))
  {
    var p := HeaderPosition(m, a, c);
    assert m.ColumnShapeOk(c);
    NeighboursH(s, Headers(m, a), p);
    UnlinkHRing(s, Headers(m, a), p);
    HeaderFrame(m, s, a, c);
  }

  /** Header links are disjoint from row links and from columns. */
  lemma HeaderFrame(m: Layout, s: seq<Node>, a: set<nat>, c: nat)
    requires Canonical(m, s, a) && CanH(s, c)
    requires s[c].right in Headers(m, a) && s[c].left in Headers(m, a)
    ensures Fixed(m, UnlinkH(s, c))
    ensures forall d :: d in a ==> ColumnOk(m, UnlinkH(s, c), d, Gone(m, a))
  {
    var t := UnlinkH(s, c);
    UnlinkHFrame(s, c);
    forall r | 0 <= r < |m.rows|
      ensures HRing(t, m.rows[r])
    {
      forall x | x in m.rows[r] && x < |s|
        ensures t[x].left == s[x].left && t[x].right == s[x].right
      {
        var p :| 0 <= p < |m.rows[r]| && m.rows[r][p] == x;
        assert m.RowOk(r) && m.PlaceOk(r, p) && m.NodeOk(x);
      }
      HRingFrame(s, t, m.rows[r]);
    }
    forall d | d in a
      ensures ColumnOk(m, t, d, Gone(m, a))
    {
      assert ColumnOk(m, s, d, Gone(m, a));
      VRingFrame(s, t, [d] + Keep(m.members[d], Gone(m, a)));
    }
  }

  /** The arena after covering column c. */
  ghost function Covered(m: Layout, s: seq<Node>, a: set<nat>, c: nat): (t: seq<Node>)
    requires c in m.cols && CanH(s, c)
    ensures |t| == |s|
  {
    UnlinkAll(UnlinkH(s, c), Sweep(m, Linked(m, a, c)))
  }

  lemma LinkedDistinct(m: Layout, a: set<nat>, c: nat)
    requires c in m.cols
    ensures Distinct(Linked(m, a, c))
  {
    KeepDistinct(m.members[c], Gone(m, a));
  }

  lemma NodeAt(m: Layout, r: nat, c: nat) returns (x: nat)
    requires r < |m.rows| && c in RowCols(m, r)
    ensures x in m.rowOf && m.NodeOk(x) && m.rowOf[x] == r && m.colOf[x] == c
  {
    assert m.RowOk(r);
    var p :| 0 <= p < |m.rows[r]| && m.PlaceOk(r, p) && m.colOf[m.rows[r][p]] == c;
    x := m.rows[r][p];
  }

  /** The node of an uncovered row in column c is linked there. */
  lemma LinkedAt(m: Layout, a: set<nat>, r: nat, c: nat) returns (x: nat)
    requires c in m.cols && r < |m.rows| && c in RowCols(m, r) && RowCols(m, r) <= a
    ensures x in Linked(m, a, c) && x in m.rowOf && m.rowOf[x] == r
  {
    x := NodeAt(m, r, c);
    assert x !in Gone(m, a);
  }

  /** A node outside column c is swept exactly when covering c puts its row out of play. */
  lemma SweptIffGone(m: Layout, a: set<nat>, c: nat, x: nat)
    requires c in a && a <= m.Cols() && x in m.rowOf && m.NodeOk(x) && m.colOf[x] != c
    ensures x in Gone(m, a) || x in Sweep(m, Linked(m, a, c)) <==> x in Gone(m, a - {c})
  {
    var l, r := Linked(m, a, c), m.rowOf[x];
    SweepMember(m, l, x);
    if x in Sweep(m, l) {
      var i :| 0 <= i < |l| && l[i] in m.rowOf && x in Others(m, l[i]);
      OthersOk(m, l[i], x);
      RowColsOf(m, l[i]);
    }
    if RowCols(m, r) <= a && c in RowCols(m, r) {
      var y := LinkedAt(m, a, r, c);
      OthersAll(m, y, x);
      var i :| 0 <= i < |l| && l[i] == y;
    }
  }

  /** Covering column c leaves exactly the columns and rows that do not use c. */
  lemma CoverCanonical(m: Layout, s: seq<Node>, a: set<nat>, c: nat)
    requires Canonical(m, s, a) && c in a
    ensures CanH(s, c) && Canonical(m, Covered(m, s, a, c), a - {c})
  {
    CoverHeader(m, s, a, c);
    var js := Sweep(m, Linked(m, a, c));
    LinkedDistinct(m, a, c);
    SweepWhole(m, a, c, Linked(m, a, c));
    UnlinkAllPartial(m, UnlinkH(s, c), a, c, js);
    var t := Covered(m, s, a, c);
    forall d | d in a - {c}
      ensures ColumnOk(m, t, d, Gone(m, a - {c}))
    {
      assert ColumnOk(m, t, d, Gone(m, a) + ToSet(js));
      forall x | x in m.members[d]
        ensures x in Gone(m, a) + ToSet(js) <==> x in Gone(m, a - {c})
      {
        assert m.ColumnShapeOk(d) && m.NodeOk(x);
        SweptIffGone(m, a, c, x);
      }
      KeepSame(m.members[d], Gone(m, a) + ToSet(js), Gone(m, a - {c}));
    }
  }

  // ------------------------------------------------------------ the sweep, step by step

  /** The nodes unlinked once i rows, and q nodes of the next row, have been swept. */
  ghost function SweptNodes(m: Layout, a: set<nat>, c: nat, i: nat, q: nat): seq<nat>
    requires c in m.cols
  {
    var l := Linked(m, a, c);
    var i := if i <= |l| then i else |l|;
    assert forall x :: x in l[..i] ==> x in l;
    Sweep(m, l[..i]) +
    (if i < |l| then Others(m, l[i])[..if q <= |Others(m, l[i])| then q else |Others(m, l[i])|] else [])
  }

  /** The arena when that much of the cover of column c has been done. */
  ghost function Swept(m: Layout, s: seq<Node>, a: set<nat>, c: nat, i: nat, q: nat): (t: seq<Node>)
    requires c in m.cols
    ensures |t| == |s|
  {
    UnlinkAll(if CanH(s, c) then UnlinkH(s, c) else s, SweptNodes(m, a, c, i, q))
  }

  lemma SweptPlan(m: Layout, a: set<nat>, c: nat, i: nat, q: nat)
    requires c in m.cols && i <= |Linked(m, a, c)|
    requires i < |Linked(m, a, c)| ==> q <= |Others(m, Linked(m, a, c)[i])|
    ensures PlanOk(m, a, c, SweptNodes(m, a, c, i, q))
  {
    var l := Linked(m, a, c);
    LinkedDistinct(m, a, c);
    assert forall x :: x in l[..i] ==> x in l;
    if i < |l| {
      assert l[..i] + [l[i]] == l[..i + 1];
      assert forall x :: x in l[..i + 1] ==> x in l;
      SweepPlan(m, a, c, l[..i], l[i], q);
    } else {
      SweepWhole(m, a, c, l[..i]);
    }
  }

  /** Throughout the sweep the rows' rings and column c itself stay intact. */
  lemma SweptIntact(m: Layout, s: seq<Node>, a: set<nat>, c: nat, i: nat, q: nat)
    requires Canonical(m, s, a) && c in a && i <= |Linked(m, a, c)|
    requires i < |Linked(m, a, c)| ==> q <= |Others(m, Linked(m, a, c)[i])|
    ensures Fixed(m, Swept(m, s, a, c, i, q))
    ensures VRing(Swept(m, s, a, c, i, q), [c] + Linked(m, a, c))
  {
    var js := SweptNodes(m, a, c, i, q);
    SweptPlan(m, a, c, i, q);
    CoverHeader(m, s, a, c);
    UnlinkAllPartial(m, UnlinkH(s, c), a, c, js);
    assert ColumnOk(m, Swept(m, s, a, c, i, q), c, Gone(m, a) + ToSet(js));
    KeepSame(m.members[c], Gone(m, a), Gone(m, a) + ToSet(js));
  }

  lemma SweptSnoc(m: Layout, a: set<nat>, c: nat, i: nat, q: nat)
    requires c in m.cols && i < |Linked(m, a, c)| && q < |Others(m, Linked(m, a, c)[i])|
    ensures SweptNodes(m, a, c, i, q + 1) == SweptNodes(m, a, c, i, q) + [Others(m, Linked(m, a, c)[i])[q]]
  {
    var l := Linked(m, a, c);
    var o := Others(m, l[i]);
    assert o[..q + 1] == o[..q] + [o[q]];
  }

  /** One more unlink advances the sweep by one node, and one relink steps it back. */
  lemma SweptUnlink(m: Layout, s: seq<Node>, a: set<nat>, c: nat, i: nat, q: nat)
    requires Canonical(m, s, a) && c in a
    requires i < |Linked(m, a, c)| && q < |Others(m, Linked(m, a, c)[i])|
    ensures var t, u, j := Swept(m, s, a, c, i, q), Swept(m, s, a, c, i, q + 1), Others(m, Linked(m, a, c)[i])[q];
      CanV(t, j) && u == UnlinkV(t, j) && CanV(u, j) && RelinkV(u, j) == t
  {
    var o := Others(m, Linked(m, a, c)[i]);
    SweptPlan(m, a, c, i, q + 1);
    CoverHeader(m, s, a, c);
    SweptSnoc(m, a, c, i, q);
    RelinkLast(m, UnlinkH(s, c), a, c, SweptNodes(m, a, c, i, q), o[q]);
  }

  lemma SweptNextRow(m: Layout, s: seq<Node>, a: set<nat>, c: nat, i: nat)
    requires c in m.cols && i < |Linked(m, a, c)|
    ensures Swept(m, s, a, c, i, |Others(m, Linked(m, a, c)[i])|) == Swept(m, s, a, c, i + 1, 0)
  {
    hide Shape.Ok, UnlinkAll, Gone;
    var l := Linked(m, a, c);
    var o := Others(m, l[i]);
    assert o[..|o|] == o;
    assert forall x :: x in l[..i + 1] ==> x in l;
    assert l[..i + 1][..i] == l[..i] && l[..i + 1][i] == l[i];
    assert SweptNodes(m, a, c, i, |o|) == SweptNodes(m, a, c, i + 1, 0);
  }

  lemma SweptStart(m: Layout, s: seq<Node>, a: set<nat>, c: nat)
    requires Canonical(m, s, a) && c in a
    ensures CanH(s, c) && Swept(m, s, a, c, 0, 0) == UnlinkH(s, c)
    ensures var l, t := Linked(m, a, c), UnlinkH(s, c);
      && CanH(t, c) && RelinkH(t, c) == s && t[c].down == At(l, 0, c)
  {
    assert SweptNodes(m, a, c, 0, 0) == [];
    CoverHeader(m, s, a, c);
    RelinkUndoesUnlinkH(s, c);
    SweptIntact(m, s, a, c, 0, 0);
    ColumnWalk(UnlinkH(s, c), c, Linked(m, a, c), 0);
  }

  lemma SweptEnd(m: Layout, s: seq<Node>, a: set<nat>, c: nat)
    requires Canonical(m, s, a) && c in a
    ensures CanH(s, c) && Swept(m, s, a, c, |Linked(m, a, c)|, 0) == Covered(m, s, a, c)
    ensures Canonical(m, Covered(m, s, a, c), a - {c})
    ensures var l, t := Linked(m, a, c), Covered(m, s, a, c);
      c < |t| && t[c].up == (if l == [] then c else l[|l| - 1])
  {
    hide UnlinkAll, Sweep;
    var l := Linked(m, a, c);
    CoverCanonical(m, s, a, c);
    assert l[..|l|] == l;
    assert SweptNodes(m, a, c, |l|, 0) == Sweep(m, l);
    SweptIntact(m, s, a, c, |l|, 0);
    ColumnWalk(Covered(m, s, a, c), c, l, 0);
  }

  /** Where the links of the i-th linked row lead while column c is being swept. */
  lemma SweptRow(m: Layout, s: seq<Node>, a: set<nat>, c: nat, i: nat, q: nat)
    requires Canonical(m, s, a) && c in a && i < |Linked(m, a, c)|
    requires q <= |Others(m, Linked(m, a, c)[i])|
    ensures var l, t := Linked(m, a, c), Swept(m, s, a, c, i, q);
      var x, o := l[i], Others(m, l[i]);
      && x < |t| && t[x].down == At(l, i + 1, c) && t[x].up == (if i == 0 then c else l[i - 1])
      && t[x].right == At(o, 0, x) && t[x].left == (if o == [] then x else o[|o| - 1])
  {
    SweptIntact(m, s, a, c, i, q);
    ColumnWalk(Swept(m, s, a, c, i, q), c, Linked(m, a, c), i);
    OthersWalk(m, Swept(m, s, a, c, i, q), Linked(m, a, c)[i], 0);
  }

  /** One step right, and one step left, along the i-th linked row. */
  lemma SweptStep(m: Layout, s: seq<Node>, a: set<nat>, c: nat, i: nat, q: nat, q': nat)
    requires Canonical(m, s, a) && c in a && i < |Linked(m, a, c)|
    requires q < |Others(m, Linked(m, a, c)[i])| && q' <= |Others(m, Linked(m, a, c)[i])|
    ensures var t, x := Swept(m, s, a, c, i, q'), Linked(m, a, c)[i];
      var o := Others(m, x);
      && o[q] < |t| && t[o[q]].right == At(o, q + 1, x) && t[o[q]].left == (if q == 0 then x else o[q - 1])
  {
    SweptIntact(m, s, a, c, i, q');
    OthersWalk(m, Swept(m, s, a, c, i, q'), Linked(m, a, c)[i], q);
  }

  /** The node met after i steps around the ring that starts at c. */
  function At(l: seq<nat>, i: nat, c: nat): nat {
    if i < |l| then l[i] else c
  }

  lemma ColumnWalk(s: seq<Node>, c: nat, l: seq<nat>, i: nat)
    requires VRing(s, [c] + l) && i <= |l|
    ensures c < |s| && s[c].down == At(l, 0, c) && s[c].up == (if l == [] then c else l[|l| - 1])
    ensures i < |l| ==> l[i] < |s| && s[l[i]].down == At(l, i + 1, c)
    ensures i < |l| ==> s[l[i]].up == (if i == 0 then c else l[i - 1])
  {
    var ring := [c] + l;
    assert VLinked(s, ring, 0);
    if i < |l| {
      assert VLinked(s, ring, i + 1);
    }
  }

  /** A canonical arena, with its layout and its uncovered columns. */
  datatype View = View(m: Layout, s: seq<Node>, a: set<nat>)

  type Arena = v: View | Canonical(v.m, v.s, v.a)
    ghost witness View(Shape(1, [], [], map[], map[], map[], map[], map[]), [Node(0, 0, 0, 0, 0, 0, 0)], {})

  // ------------------------------------------------------------ traces

  /** The arenas met while the nodes `others` of x's row are unlinked one by one. */
  datatype RowRun = RowRun(st: seq<seq<Node>>, x: nat, others: seq<nat>)
  {
    /** Unlinking the q-th node leads from st[q] to st[q + 1], relinking it leads back, and
        the row's links lead on (right, on the way out) and back (left, on the way back). */
    ghost predicate Step(q: nat)
      requires q < |others| && |st| == |others| + 1
    {
      var t, u, j := st[q], st[q + 1], others[q];
      && CanV(t, j) && u == UnlinkV(t, j)
      && CanV(u, j) && RelinkV(u, j) == t
      && u[j].right == At(others, q + 1, x)
      && t[j].left == (if q == 0 then x else others[q - 1])
    }

    ghost predicate Ok() {
      && |st| == |others| + 1
      && x !in others
      && (forall q :: 0 <= q < |others| ==> Step(q))
      && x < |st[0]| && st[0][x].right == At(others, 0, x)
      && x < |st[|others|]| && st[|others|][x].left == (if others == [] then x else others[|others| - 1])
    }
  }

  type RowTrace = r: RowRun | r.Ok() ghost witness RowRun([[Node(0, 0, 0, 0, 0, 0, 0)]], 0, [])

  /** A row trace from arena t to arena u, and the column's links around its i-th row. */
  ghost predicate ColumnStep(r: RowTrace, t: seq<Node>, u: seq<Node>, c: nat, l: seq<nat>, i: nat)
    requires i < |l|
  {
    && r.x == l[i] && l[i] != c
    && r.st[0] == t && r.st[|r.others|] == u
    && l[i] < |u| && u[l[i]].down == At(l, i + 1, c)
    && l[i] < |t| && t[l[i]].up == (if i == 0 then c else l[i - 1])
  }

  /** All arenas met while column c, with rows l, is covered: from s, with the header out
      bs[0], after i rows bs[i]. */
  datatype ColumnRun = ColumnRun(s: seq<Node>, c: nat, l: seq<nat>, runs: seq<RowTrace>, bs: seq<seq<Node>>)
  {
    ghost predicate Step(i: nat)
      requires i < |l| == |runs| && |bs| == |l| + 1
    {
      ColumnStep(runs[i], bs[i], bs[i + 1], c, l, i)
    }

    ghost predicate Ok() {
      && |runs| == |l| && |bs| == |l| + 1
      && (forall i :: 0 <= i < |l| ==> Step(i))
      && CanH(s, c) && bs[0] == UnlinkH(s, c) && CanH(bs[0], c) && RelinkH(bs[0], c) == s
      && bs[0][c].down == At(l, 0, c)
      && c < |bs[|l|]| && bs[|l|][c].up == (if l == [] then c else l[|l| - 1])
    }
  }

  /** The arenas met while the i-th linked row of column c is swept. */
  ghost function RowStates(v: Arena, c: nat, i: nat): (r: RowRun)
    requires c in v.a && i < |Linked(v.m, v.a, c)|
  {
    var x := Linked(v.m, v.a, c)[i];
    RowRun(seq(|Others(v.m, x)| + 1, q requires 0 <= q => Swept(v.m, v.s, v.a, c, i, q)), x, Others(v.m, x))
  }

  lemma SweptRowTrace(v: Arena, c: nat, i: nat)
    requires c in v.a && i < |Linked(v.m, v.a, c)|
    ensures RowStates(v, c, i).Ok()
  {
    hide Shape.Ok, Linked, Swept, UnlinkV, RelinkV;
    var r := RowStates(v, c, i);
    forall q | 0 <= q < |r.others|
      ensures r.Step(q)
    {
      SweptUnlink(v.m, v.s, v.a, c, i, q);
      SweptStep(v.m, v.s, v.a, c, i, q, q);
      SweptStep(v.m, v.s, v.a, c, i, q, q + 1);
    }
    if r.x in r.others {
      OthersOk(v.m, r.x, r.x);
    }
    SweptRow(v.m, v.s, v.a, c, i, 0);
    SweptRow(v.m, v.s, v.a, c, i, |r.others|);
  }

  ghost function RowTraceAt(v: Arena, c: nat, i: nat): (r: RowTrace)
    requires c in v.a && i < |Linked(v.m, v.a, c)|
  {
    SweptRowTrace(v, c, i);
    RowStates(v, c, i)
  }

  lemma SweptColumnStep(v: Arena, c: nat, i: nat)
    requires c in v.a && i < |Linked(v.m, v.a, c)|
    ensures ColumnStep(RowTraceAt(v, c, i), Swept(v.m, v.s, v.a, c, i, 0), Swept(v.m, v.s, v.a, c, i + 1, 0), c,
        Linked(v.m, v.a, c), i)
  {
    SweptNextRow(v.m, v.s, v.a, c, i);
    SweptRow(v.m, v.s, v.a, c, i, 0);
    SweptRow(v.m, v.s, v.a, c, i, |Others(v.m, Linked(v.m, v.a, c)[i])|);
  }

  ghost function ColumnStates(v: Arena, c: nat): (g: ColumnRun)
    requires c in v.a
  {
    ColumnRun(v.s, c, Linked(v.m, v.a, c), RowTraces(v, c), ColumnArenas(v, c))
  }

  ghost function RowTraces(v: Arena, c: nat): seq<RowTrace>
    requires c in v.a
  {
    seq(|Linked(v.m, v.a, c)|, i requires 0 <= i < |Linked(v.m, v.a, c)| => RowTraceAt(v, c, i))
  }

  ghost function ColumnArenas(v: Arena, c: nat): seq<seq<Node>>
    requires c in v.a
  {
    seq(|Linked(v.m, v.a, c)| + 1, i requires 0 <= i => Swept(v.m, v.s, v.a, c, i, 0))
  }

  lemma ColumnStatesStep(v: Arena, c: nat, i: nat)
    requires c in v.a && i < |Linked(v.m, v.a, c)|
    ensures ColumnStates(v, c).Step(i)
  {
    hide Shape.Ok, Linked, Swept, RowTraceAt, ColumnStep;
    SweptColumnStep(v, c, i);
  }

  /** Covering a column of a canonical arena has a trace that ends in `Covered`. */
  lemma CoverTrace(v: Arena, c: nat)
    requires c in v.a
    ensures var g := ColumnStates(v, c);
      g.Ok() && CanH(v.s, c) && g.bs[|g.l|] == Covered(v.m, v.s, v.a, c)
  {
    hide Shape.Ok, Linked, Swept, RowTraceAt, ColumnStep, Covered, UnlinkH, RelinkH;
    var g := ColumnStates(v, c);
    SweptStart(v.m, v.s, v.a, c);
    SweptEnd(v.m, v.s, v.a, c);
    forall i | 0 <= i < |g.l|
      ensures g.Step(i)
    {
      ColumnStatesStep(v, c, i);
    }
  }

  // ------------------------------------------------------------ choosing a row

  /** What is left of the columns `a` once the columns of the first q nodes of `o` are covered. */
  ghost function Cut(m: Layout, a: set<nat>, o: seq<nat>, q: nat): set<nat>
    requires q <= |o|
  {
    set c | c in a && forall k :: 0 <= k < q ==> o[k] in m.colOf && m.colOf[o[k]] != c
  }

  /** Row node x can be chosen: its own column is covered and its other columns are not. */
  ghost predicate Choosable(m: Layout, a: set<nat>, x: nat) {
    && x in m.rowOf && x in m.colOf && m.rowOf[x] < |m.rows| && m.colOf[x] !in a
    && RowCols(m, m.rowOf[x]) <= a + {m.colOf[x]}
  }

  /** The q-th other column of a choosable row is still uncovered when its turn comes. */
  lemma CutHas(m: Layout, a: set<nat>, x: nat, q: nat)
    requires Choosable(m, a, x) && q < |Others(m, x)|
    ensures var o := Others(m, x);
      && o[q] in m.colOf && m.colOf[o[q]] in Cut(m, a, o, q)
      && Cut(m, a, o, q + 1) == Cut(m, a, o, q) - {m.colOf[o[q]]}
  {
    var o := Others(m, x);
    OthersOk(m, x, o[q]);
    RowColsOf(m, o[q]);
    OthersDistinct(m, x);
    forall k | 0 <= k < q
      ensures o[k] in m.colOf && m.colOf[o[k]] != m.colOf[o[q]]
    {
      OthersOk(m, x, o[k]);
      if m.colOf[o[k]] == m.colOf[o[q]] {
        OnePerColumn(m, o[k], o[q]);
      }
    }
  }

  /** Covering all other columns of the row leaves the columns outside the row. */
  lemma CutAll(m: Layout, a: set<nat>, x: nat)
    requires Choosable(m, a, x)
    ensures Cut(m, a, Others(m, x), 0) == a
    ensures Cut(m, a, Others(m, x), |Others(m, x)|) == a - RowCols(m, m.rowOf[x])
  {
    var o, r := Others(m, x), m.rowOf[x];
    forall k | 0 <= k < |o|
      ensures o[k] in m.colOf && m.colOf[o[k]] in RowCols(m, r)
    {
      OthersOk(m, x, o[k]);
      RowColsOf(m, o[k]);
    }
    forall c | c in a && c in RowCols(m, r)
      ensures exists k :: 0 <= k < |o| && o[k] in m.colOf && m.colOf[o[k]] == c
    {
      var y := NodeAt(m, r, c);
      OthersAll(m, x, y);
      var k :| 0 <= k < |o| && o[k] == y;
      assert m.colOf[o[k]] == c;
    }
  }

  /** Covering column c, as a step between canonical arenas. */
  ghost function CoverOf(v: Arena, c: nat): (w: Arena)
    requires c in v.a
    ensures w.m == v.m && w.a == v.a - {c} && |w.s| == |v.s|
  {
    CoverCanonical(v.m, v.s, v.a, c);
    View(v.m, Covered(v.m, v.s, v.a, c), v.a - {c})
  }

  /** Where the links of a covered column lead: down its linked rows and back to it. */
  lemma CoveredWalk(v: Arena, c: nat, i: nat)
    requires c in v.a && i <= |Linked(v.m, v.a, c)|
    ensures var l, t := Linked(v.m, v.a, c), CoverOf(v, c).s;
      && c < |t| && t[c].down == At(l, 0, c)
      && (i < |l| ==> l[i] < |t| && t[l[i]].down == At(l, i + 1, c))
  {
    var l := Linked(v.m, v.a, c);
    SweptEnd(v.m, v.s, v.a, c);
    SweptIntact(v.m, v.s, v.a, c, |l|, 0);
    ColumnWalk(Covered(v.m, v.s, v.a, c), c, l, i);
  }

  /** A row linked in column c can be chosen once c is covered. */
  lemma LinkedChoosable(v: Arena, c: nat, x: nat)
    requires c in v.a && x in Linked(v.m, v.a, c)
    ensures Choosable(v.m, v.a - {c}, x)
    ensures x != c && RowCols(v.m, v.m.rowOf[x]) <= v.a
    ensures v.a - {c} - RowCols(v.m, v.m.rowOf[x]) == v.a - RowCols(v.m, v.m.rowOf[x])
  {
    assert v.m.NodeOk(x);
    RowColsOf(v.m, x);
  }

  /** Covering the columns of the first q other nodes of row node x, one after the other. */
  ghost function Branch(v: Arena, x: nat, q: nat): (w: Arena)
    ensures w.m == v.m && |w.s| == |v.s|
  {
    if q == 0 || x !in v.m.rowOf || q > |Others(v.m, x)| then v else
      var w, j := Branch(v, x, q - 1), Others(v.m, x)[q - 1];
      if j in w.m.colOf && w.m.colOf[j] in w.a then CoverOf(w, w.m.colOf[j]) else w
  }

  lemma {:induction false} BranchColumns(v: Arena, x: nat, q: nat)
    requires Choosable(v.m, v.a, x) && q <= |Others(v.m, x)|
    ensures Branch(v, x, q).a == Cut(v.m, v.a, Others(v.m, x), q)
  {
    hide Canonical, Shape.Ok, Others, CoverOf, Cut;
    if q == 0 {
      CutAll(v.m, v.a, x);
    } else {
      BranchColumns(v, x, q - 1);
      CutHas(v.m, v.a, x, q - 1);
    }
  }

  lemma BranchStep(v: Arena, x: nat, q: nat)
    requires Choosable(v.m, v.a, x) && q < |Others(v.m, x)|
    ensures var w, j := Branch(v, x, q), Others(v.m, x)[q];
      j in v.m.colOf && v.m.colOf[j] in w.a && Branch(v, x, q + 1) == CoverOf(w, v.m.colOf[j])
  {
    hide Canonical, Shape.Ok, Others, CoverOf, Cut;
    BranchColumns(v, x, q);
    CutHas(v.m, v.a, x, q);
  }

  /** Choosing a row linked in column c leaves the columns outside the row. */
  lemma LinkedBranch(v: Arena, c: nat, x: nat) returns (b: Arena)
    requires c in v.a && x in Linked(v.m, v.a, c)
    ensures x in v.m.rowOf && v.m.rowOf[x] < |v.m.rows| && RowCols(v.m, v.m.rowOf[x]) <= v.a
    ensures Choosable(v.m, v.a - {c}, x) && b == Branch(CoverOf(v, c), x, |Others(v.m, x)|)
    ensures b.m == v.m && b.a == v.a - RowCols(v.m, v.m.rowOf[x]) && |b.a| < |v.a|
  {
    LinkedChoosable(v, c, x);
    b := Branch(CoverOf(v, c), x, |Others(v.m, x)|);
    BranchColumns(CoverOf(v, c), x, |Others(v.m, x)|);
    CutAll(v.m, v.a - {c}, x);
    RowColsOf(v.m, x);
    SmallerSet(b.a, v.a, c);
  }

  lemma SmallerSet(b: set<nat>, a: set<nat>, c: nat)
    requires b <= a && c in a && c !in b
    ensures |b| < |a|
  {
    assert a == (a - b) + b;
    assert c in a - b;
  }

  /** Where row node x's links lead in a canonical arena. */
  lemma RowWalk(w: Arena, x: nat, q: nat)
    requires x in w.m.rowOf && q < |Others(w.m, x)|
    ensures var o, j := Others(w.m, x), Others(w.m, x)[q];
      && j < |w.s| && j != x && j in w.m.colOf && w.s[j].col == w.m.colOf[j]
      && w.s[j].right == At(o, q + 1, x) && w.s[j].left == (if q == 0 then x else o[q - 1])
  {
    OthersOk(w.m, x, Others(w.m, x)[q]);
    OthersWalk(w.m, w.s, x, q);
  }

  lemma RowEnds(w: Arena, x: nat)
    requires x in w.m.rowOf
    ensures var o := Others(w.m, x);
      x < |w.s| && w.s[x].right == At(o, 0, x) && w.s[x].left == (if o == [] then x else o[|o| - 1])
  {
    OthersWalk(w.m, w.s, x, 0);
  }

  lemma HeadersOf(w: Arena)
    ensures forall i :: 1 <= i < |Headers(w.m, w.a)| ==> Headers(w.m, w.a)[i] in w.a && Headers(w.m, w.a)[i] != 0
    ensures w.a <= w.m.Cols()
    ensures forall c :: c in w.a ==> exists i :: 1 <= i < |Headers(w.m, w.a)| && Headers(w.m, w.a)[i] == c
  {
    var l := Keep(w.m.cols, w.m.Cols() - w.a);
    forall i | 1 <= i < |Headers(w.m, w.a)|
      ensures Headers(w.m, w.a)[i] in w.a && Headers(w.m, w.a)[i] != 0
    {
      assert Headers(w.m, w.a)[i] == l[i - 1] && l[i - 1] in l;
      assert w.m.ColumnShapeOk(l[i - 1]);
    }
    forall c | c in w.a
      ensures exists i :: 1 <= i < |Headers(w.m, w.a)| && Headers(w.m, w.a)[i] == c
    {
      assert c in l;
      var k :| 0 <= k < |l| && l[k] == c;
      assert Headers(w.m, w.a)[k + 1] == c;
    }
  }

  /** The header ring of a canonical arena lists its uncovered columns after the root. */
  lemma HeaderWalk(w: Arena, i: nat)
    requires i < |Headers(w.m, w.a)|
    ensures var h := Headers(w.m, w.a);
      && 0 < |w.s| && w.s[0].left == h[|h| - 1] && w.s[0].right == At(h, 1, 0)
      && h[i] < |w.s| && w.s[h[i]].right == At(h, i + 1, 0)
  {
    var h := Headers(w.m, w.a);
    assert HLinked(w.s, h, 0) && HLinked(w.s, h, i);
  }

  /** The root stands alone exactly when every column is covered. */
  lemma RootAlone(w: Arena)
    ensures 0 < |w.s| && (w.s[0].left == 0 <==> w.a == {})
  {
    HeaderWalk(w, 0);
    HeadersOf(w);
    var h := Headers(w.m, w.a);
    if c :| c in w.a {
      var i :| 1 <= i < |h| && h[i] == c;
    }
    assert |h| > 1 ==> h[|h| - 1] in w.a;
  }

  lemma ColumnSize(w: Arena, c: nat)
    requires c in w.a
    ensures c in w.m.cols && c < |w.s| && w.s[c].size == |Linked(w.m, w.a, c)|
  {
    assert ColumnOk(w.m, w.s, c, Gone(w.m, w.a));
  }

  // ------------------------------------------------------------ exact covers

  /** The rows S have a one in every column of `a` exactly once, and nowhere else. */
  ghost predicate IsCover(m: Layout, S: set<nat>, a: set<nat>)
  {
    && (forall r :: r in S ==> r < |m.rows| && RowCols(m, r) <= a)
    && (forall c :: c in a ==> exists r :: r in S && r < |m.rows| && c in RowCols(m, r))
    && (forall r, q :: r in S && q in S && r != q ==> r < |m.rows| && q < |m.rows| && RowCols(m, r) !! RowCols(m, q))
  }

  ghost predicate NoCover(m: Layout, a: set<nat>)
  {
    forall S :: !IsCover(m, S, a)
  }

  ghost predicate NoCoverWith(m: Layout, a: set<nat>, r: nat)
  {
    forall S :: r in S ==> !IsCover(m, S, a)
  }

  /** The stacked row nodes have disjoint rows, whose columns are exactly those outside `a`. */
  ghost predicate StackOk(m: Layout, stack: seq<nat>, a: set<nat>)
  {
    && a <= m.Cols()
    && (forall i :: 0 <= i < |stack| ==> stack[i] in m.rowOf && RowCols(m, m.rowOf[stack[i]]) !! a)
    && (forall i, j :: 0 <= i < j < |stack| ==>
          && stack[i] in m.rowOf && stack[j] in m.rowOf
          && RowCols(m, m.rowOf[stack[i]]) !! RowCols(m, m.rowOf[stack[j]]))
    && (forall c :: c in m.cols && c !in a ==>
          exists i :: 0 <= i < |stack| && stack[i] in m.rowOf && c in RowCols(m, m.rowOf[stack[i]]))
  }

  lemma StackPush(m: Layout, stack: seq<nat>, a: set<nat>, x: nat)
    requires StackOk(m, stack, a) && x in m.rowOf && RowCols(m, m.rowOf[x]) <= a
    ensures StackOk(m, stack + [x], a - RowCols(m, m.rowOf[x]))
  {
    hide RowCols;
    var st, b := stack + [x], a - RowCols(m, m.rowOf[x]);
    forall c | c in m.cols && c !in b
      ensures exists i :: 0 <= i < |st| && st[i] in m.rowOf && c in RowCols(m, m.rowOf[st[i]])
    {
      if c in a {
        assert st[|stack|] == x;
      } else {
        var i :| 0 <= i < |stack| && stack[i] in m.rowOf && c in RowCols(m, m.rowOf[stack[i]]);
        assert st[i] == stack[i];
      }
    }
  }

  /** Taking row r out of an exact cover leaves an exact cover of the remaining columns. */
  lemma CoverMinusRow(m: Layout, S: set<nat>, a: set<nat>, r: nat)
    requires IsCover(m, S, a) && r in S
    ensures r < |m.rows| && IsCover(m, S - {r}, a - RowCols(m, r))
  {
    forall c | c in a - RowCols(m, r)
      ensures exists q :: q in S - {r} && q < |m.rows| && c in RowCols(m, q)
    {
      var q :| q in S && q < |m.rows| && c in RowCols(m, q);
      assert q in S - {r};
    }
  }

  lemma BranchRefuted(m: Layout, a: set<nat>, r: nat)
    requires r < |m.rows| && NoCover(m, a - RowCols(m, r))
    ensures NoCoverWith(m, a, r)
  {
    forall S | r in S
      ensures !IsCover(m, S, a)
    {
      if IsCover(m, S, a) {
        CoverMinusRow(m, S, a, r);
      }
    }
  }

  /** Any exact cover uses one of the rows linked in column c. */
  lemma CoverUsesColumn(m: Layout, S: set<nat>, a: set<nat>, c: nat)
    requires c in a && a <= m.Cols() && IsCover(m, S, a)
    ensures exists x :: x in Linked(m, a, c) && m.rowOf[x] in S
  {
    var r :| r in S && r < |m.rows| && c in RowCols(m, r);
    var x := LinkedAt(m, a, r, c);
  }

  lemma AllBranchesRefuted(v: Arena, c: nat)
    requires c in v.a
    requires forall x :: x in Linked(v.m, v.a, c) ==> NoCoverWith(v.m, v.a, v.m.rowOf[x])
    ensures NoCover(v.m, v.a)
  {
    forall S
      ensures !IsCover(v.m, S, v.a)
    {
      if IsCover(v.m, S, v.a) {
        CoverUsesColumn(v.m, S, v.a, c);
      }
    }
  }
}
