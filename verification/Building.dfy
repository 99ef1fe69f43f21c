/** Growing the matrix: appending a column to the header ring, and appending a row of four
    nodes to their columns and to each other. */
module Building {
  import opened Rings
  import opened DancingLinks

  /** put_left: inserts x just left of h, that is, at the end of the ring that starts at h. */
  function PutLeft(s: seq<Node>, h: nat, x: nat): (t: seq<Node>)
    requires h < |s| && x < |s| && s[h].left < |s|
    ensures |t| == |s|
  {
    var s1 := s[x := s[x].(left := s[h].left, right := h)];
    if s1[h].left < |s1| then
      var s2 := s1[s1[h].left := s1[s1[h].left].(right := x)];
      s2[h := s2[h].(left := x)]
    else s1
  }

  /** put_up: appends x at the bottom of column c. */
  function PutUp(s: seq<Node>, c: nat, x: nat): (t: seq<Node>)
    requires c < |s| && x < |s| && s[c].up < |s|
    ensures |t| == |s|
  {
    var s1 := s[x := s[x].(up := s[c].up, down := c)];
    if s1[c].up < |s1| then
      var s2 := s1[s1[c].up := s1[s1[c].up].(down := x)];
      var s3 := s2[c := s2[c].(up := x, size := s2[c].size + 1)];
      s3[x := s3[x].(col := c)]
    else s1
  }

  lemma PutLeftFrame(s: seq<Node>, h: nat, x: nat)
    requires h < |s| && x < |s| && s[h].left < |s| && x != h && s[h].left != x
    ensures var t := PutLeft(s, h, x);
      forall i :: 0 <= i < |s| ==>
        && t[i].up == s[i].up && t[i].down == s[i].down && t[i].col == s[i].col
        && t[i].name == s[i].name && t[i].size == s[i].size
        && t[i].left == (if i == x then s[h].left else if i == h then x else s[i].left)
        && t[i].right == (if i == x then h else if i == s[h].left then x else s[i].right)
  {
  }

  lemma PutUpFrame(s: seq<Node>, c: nat, x: nat)
    requires c < |s| && x < |s| && s[c].up < |s| && x != c && s[c].up != x
    ensures var t := PutUp(s, c, x);
      forall i :: 0 <= i < |s| ==>
        && t[i].left == s[i].left && t[i].right == s[i].right && t[i].name == s[i].name
        && t[i].col == (if i == x then c else s[i].col)
        && t[i].size == (if i == c then s[i].size + 1 else s[i].size)
        && t[i].up == (if i == x then s[c].up else if i == c then x else s[i].up)
        && t[i].down == (if i == x then c else if i == s[c].up then x else s[i].down)
  {
  }

  /** What put_left does to the ring that starts at h. */
  lemma PutLeftRing(s: seq<Node>, ring: seq<nat>, x: nat)
    requires |ring| > 0 && HRing(s, ring) && Distinct(ring) && x < |s| && x !in ring && ring[0] < |s|
    ensures s[ring[0]].left < |s| && s[ring[0]].left in ring && HRing(PutLeft(s, ring[0], x), ring + [x])
  {
    var n, h := |ring|, ring[0];
    assert HLinked(s, ring, 0) && HLinked(s, ring, n - 1);
    assert s[h].left == ring[n - 1];
    PutLeftFrame(s, h, x);
    var t, r := PutLeft(s, h, x), ring + [x];
    forall i | 0 <= i < |r|
      ensures HLinked(t, r, i)
    {
      if i < n {
        assert HLinked(s, ring, i) && r[i] == ring[i];
        assert ring[i] == h <==> i == 0;
        assert ring[i] == ring[n - 1] <==> i == n - 1;
      }
    }
  }

  lemma PutUpRing(s: seq<Node>, ring: seq<nat>, x: nat)
    requires |ring| > 0 && VRing(s, ring) && Distinct(ring) && x < |s| && x !in ring && ring[0] < |s|
    ensures s[ring[0]].up < |s| && s[ring[0]].up in ring && VRing(PutUp(s, ring[0], x), ring + [x])
  {
    var n, h := |ring|, ring[0];
    assert VLinked(s, ring, 0) && VLinked(s, ring, n - 1);
    assert s[h].up == ring[n - 1];
    PutUpFrame(s, h, x);
    var t, r := PutUp(s, h, x), ring + [x];
    forall i | 0 <= i < |r|
      ensures VLinked(t, r, i)
    {
      if i < n {
        assert VLinked(s, ring, i) && r[i] == ring[i];
        assert ring[i] == h <==> i == 0;
        assert ring[i] == ring[n - 1] <==> i == n - 1;
      }
    }
  }

  // ------------------------------------------------------------ columns while a row grows

  /** Column c is a ring of nodes below n, all of colour c. */
  ghost predicate PartColumn(s: seq<Node>, n: nat, members: map<nat, seq<nat>>, colour: map<nat, nat>, c: nat) {
    && 0 < c < n <= |s| && c in members
    && Distinct([c] + members[c])
    && (forall x :: x in [c] + members[c] ==> x < n && x in colour && colour[x] == c)
    && VRing(s, [c] + members[c]) && s[c].size == |members[c]|
  }

  ghost predicate Part(s: seq<Node>, n: nat, cols: seq<nat>, members: map<nat, seq<nat>>, colour: map<nat, nat>) {
    && 0 < n <= |s| && HRing(s, [0] + cols)
    && forall c :: c in cols ==> PartColumn(s, n, members, colour, c)
  }

  /** new_row: a fresh node x with name `name`, appended at the bottom of column c. */
  function NewRow(s: seq<Node>, x: nat, c: nat, name: int): (t: seq<Node>)
    requires c < |s| && x < |s| && x != c && s[c].up < |s|
    ensures |t| == |s|
  {
    PutUp(s[x := Node(x, x, x, x, c, name, 0)], c, x)
  }

  lemma NewRowFrame(s: seq<Node>, x: nat, c: nat, name: int)
    requires c < |s| && x < |s| && x != c && s[c].up < |s| && s[c].up != x
    ensures var t := NewRow(s, x, c, name);
      && t[x] == Node(x, x, s[c].up, c, c, name, 0)
      && forall i :: 0 <= i < |s| && i != x ==>
        && t[i].left == s[i].left && t[i].right == s[i].right && t[i].name == s[i].name && t[i].col == s[i].col
        && t[i].size == (if i == c then s[i].size + 1 else s[i].size)
        && t[i].up == (if i == c then x else s[i].up)
        && t[i].down == (if i == s[c].up then x else s[i].down)
  {
    PutUpFrame(s[x := Node(x, x, x, x, c, name, 0)], c, x);
  }

  /** The column that receives the node. */
  lemma PartAppendOwn(s: seq<Node>, n: nat, members: map<nat, seq<nat>>, colour: map<nat, nat>, c: nat, name: int)
    requires PartColumn(s, n, members, colour, c) && n < |s|
    ensures s[c].up < n && s[c].up in [c] + members[c]
    ensures PartColumn(NewRow(s, n, c, name), n + 1, members[c := members[c] + [n]], colour[n := c], c)
  {
    var ring := [c] + members[c];
    assert VLinked(s, ring, 0);
    assert s[c].up == ring[|ring| - 1];
    assert ring[|ring| - 1] in ring;
    var s0 := s[n := Node(n, n, n, n, c, name, 0)];
    assert n !in ring;
    VRingFrame(s, s0, ring);
    PutUpRing(s0, ring, n);
    assert ring + [n] == [c] + (members[c] + [n]);
    DistinctSnoc(ring, n);
    NewRowFrame(s, n, c, name);
  }

  /** Any other column. */
  lemma PartAppendOther(s: seq<Node>, n: nat, members: map<nat, seq<nat>>, colour: map<nat, nat>, c: nat, d: nat,
      name: int)
    requires PartColumn(s, n, members, colour, c) && PartColumn(s, n, members, colour, d) && c != d && n < |s|
    requires s[c].up < n && s[c].up in [c] + members[c]
    ensures PartColumn(NewRow(s, n, c, name), n + 1, members[c := members[c] + [n]], colour[n := c], d)
  {
    NewRowFrame(s, n, c, name);
    assert c in [c] + members[c];
    VRingFrame(s, NewRow(s, n, c, name), [d] + members[d]);
  }

  lemma PartAppend(s: seq<Node>, n: nat, cols: seq<nat>, members: map<nat, seq<nat>>, colour: map<nat, nat>, c: nat,
      name: int)
    requires Part(s, n, cols, members, colour) && c in cols && n < |s|
    requires forall d :: d in cols ==> d < n
    ensures c < |s| && n != c && s[c].up < n && c in members
    ensures Part(NewRow(s, n, c, name), n + 1, cols, members[c := members[c] + [n]], colour[n := c])
  {
    assert PartColumn(s, n, members, colour, c);
    PartAppendOwn(s, n, members, colour, c, name);
    NewRowFrame(s, n, c, name);
    HRingFrame(s, NewRow(s, n, c, name), [0] + cols);
    forall d | d in cols
      ensures PartColumn(NewRow(s, n, c, name), n + 1, members[c := members[c] + [n]], colour[n := c], d)
    {
      assert PartColumn(s, n, members, colour, d);
      if d != c {
        PartAppendOther(s, n, members, colour, c, d, name);
      }
    }
  }

  /** Linking row nodes to each other disturbs no column. */
  lemma PartPutLeft(s: seq<Node>, n: nat, cols: seq<nat>, members: map<nat, seq<nat>>, colour: map<nat, nat>, h: nat,
      x: nat)
    requires Part(s, n, cols, members, colour)
    requires h < n && x < n && s[h].left < n && h != x && s[h].left != x
    requires h !in [0] + cols && x !in [0] + cols && s[h].left !in [0] + cols
    ensures Part(PutLeft(s, h, x), n, cols, members, colour)
  {
    PutLeftFrame(s, h, x);
    HRingFrame(s, PutLeft(s, h, x), [0] + cols);
    forall d | d in cols
      ensures PartColumn(PutLeft(s, h, x), n, members, colour, d)
    {
      assert PartColumn(s, n, members, colour, d);
      VRingFrame(s, PutLeft(s, h, x), [d] + members[d]);
    }
  }

  // ------------------------------------------------------------ growing the layout

  /** The layout with one more, empty, column. */
  ghost function WithColumn(m: Layout, name: int): Shape {
    m.(n := m.n + 1, cols := m.cols + [m.n], nameOf := m.nameOf[m.n := name], members := m.members[m.n := []])
  }

  /** The layout with one more row: nodes n..n+3 in the columns cs. */
  ghost function WithRow(m: Layout, cs: seq<nat>, names: seq<int>): Shape
    requires |cs| == 4 && |names| == 4
  {
    var n, r := m.n, |m.rows|;
    Shape(
      n + 4, m.cols, m.rows + [[n, n + 1, n + 2, n + 3]],
      map x | 0 <= x < n + 4 && (x in m.rowOf || n <= x) :: if n <= x then r else m.rowOf[x],
      map x | 0 <= x < n + 4 && (x in m.posOf || n <= x) :: if n <= x then x - n else m.posOf[x],
      map x | 0 <= x < n + 4 && (x in m.colOf || n <= x) :: if n <= x then cs[x - n] else m.colOf[x],
      map x | 0 <= x < n + 4 && (x in m.nameOf || n <= x) :: if n <= x then names[x - n] else m.nameOf[x],
      map c | c in m.members :: m.members[c] + NewMembers(cs, c, n))
  }

  ghost function NewMembers(cs: seq<nat>, c: nat, n: nat): seq<nat>
    requires |cs| == 4
  {
    if c == cs[0] then [n] else if c == cs[1] then [n + 1] else if c == cs[2] then [n + 2] else
      if c == cs[3] then [n + 3] else []
  }

  lemma WithColumnOk(m: Layout, name: int)
    ensures WithColumn(m, name).Ok()
  {
    var w := WithColumn(m, name);
    assert forall c :: c in m.cols ==> m.ColumnShapeOk(c);
    DistinctSnoc(m.cols, m.n);
    forall c | c in w.cols
      ensures w.ColumnShapeOk(c)
    {
      assert c == m.n || m.ColumnShapeOk(c);
    }
    forall x | x in w.rowOf
      ensures w.NodeOk(x)
    {
      assert m.NodeOk(x);
    }
    forall r | 0 <= r < |w.rows|
      ensures w.RowOk(r)
    {
      assert m.RowOk(r);
      assert forall p :: 0 <= p < |m.rows[r]| ==> m.PlaceOk(r, p) ==> w.PlaceOk(r, p);
    }
  }

  ghost predicate FourColumns(m: Layout, cs: seq<nat>) {
    && |cs| == 4 && Distinct(cs)
    && forall k :: 0 <= k < 4 ==> cs[k] in m.cols && cs[k] in m.members
  }

  /** An old node keeps its place. */
  ghost predicate SameNode(m: Layout, w: Shape, x: nat) {
    && x in m.rowOf && x in m.posOf && x in m.colOf && x in w.rowOf && x in w.posOf && x in w.colOf
    && w.rowOf[x] == m.rowOf[x] && w.posOf[x] == m.posOf[x] && w.colOf[x] == m.colOf[x]
  }

  /** The k-th new node. */
  ghost predicate NewNode(m: Layout, w: Shape, cs: seq<nat>, k: nat)
    requires k < 4 == |cs|
  {
    var x := m.n + k;
    && x in w.rowOf && x in w.posOf && x in w.colOf
    && w.rowOf[x] == |m.rows| && w.posOf[x] == k && w.colOf[x] == cs[k]
  }

  lemma WithRowOld(m: Layout, cs: seq<nat>, names: seq<int>, x: nat)
    requires |cs| == 4 && |names| == 4 && x in m.rowOf
    ensures m.NodeOk(x) && SameNode(m, WithRow(m, cs, names), x) && x < m.n
  {
    assert m.NodeOk(x);
  }

  lemma WithRowNew(m: Layout, cs: seq<nat>, names: seq<int>, k: nat)
    requires |cs| == 4 && |names| == 4 && k < 4
    ensures NewNode(m, WithRow(m, cs, names), cs, k)
  {
  }

  lemma WithRowBase(m: Layout, cs: seq<nat>, names: seq<int>)
    requires |cs| == 4 && |names| == 4
    ensures var w := WithRow(m, cs, names);
      && w.n == m.n + 4 && w.cols == m.cols && w.rows == m.rows + [[m.n, m.n + 1, m.n + 2, m.n + 3]]
      && (forall c :: c in m.members ==> c in w.members && w.members[c] == m.members[c] + NewMembers(cs, c, m.n))
      && (forall x :: x in w.rowOf ==> x in m.rowOf || m.n <= x < m.n + 4)
      && (forall x :: x in w.nameOf ==> x < w.n)
  {
  }

  lemma WithRowColumn(m: Layout, cs: seq<nat>, names: seq<int>, c: nat)
    requires FourColumns(m, cs) && |names| == 4 && c in m.cols
    requires m.ColumnShapeOk(c)
    ensures WithRow(m, cs, names).ColumnShapeOk(c)
  {
    hide Shape.NodeOk, Shape.Ok, WithRow;
    WithRowBase(m, cs, names);
    var w, more := WithRow(m, cs, names), NewMembers(cs, c, m.n);
    forall x | x in m.members[c]
      ensures x < m.n && x in w.colOf && w.colOf[x] == c && x in w.rowOf
    {
      WithRowOld(m, cs, names, x);
    }
    if more != [] {
      DistinctSnoc(m.members[c], more[0]);
      WithRowNew(m, cs, names, more[0] - m.n);
    }
  }

  lemma WithRowNode(m: Layout, cs: seq<nat>, names: seq<int>, x: nat)
    requires FourColumns(m, cs) && |names| == 4 && x in WithRow(m, cs, names).rowOf
    ensures WithRow(m, cs, names).NodeOk(x)
  {
    hide Shape.Ok, WithRow;
    WithRowBase(m, cs, names);
    var w := WithRow(m, cs, names);
    if x in m.rowOf {
      WithRowOld(m, cs, names, x);
      assert w.rows[m.rowOf[x]] == m.rows[m.rowOf[x]];
    } else {
      var k := x - m.n;
      WithRowNew(m, cs, names, k);
      BelowN(m, x);
      assert w.members[cs[k]] == m.members[cs[k]] + [x];
      assert w.rows[|m.rows|][k] == x;
    }
  }

  lemma BelowN(m: Layout, x: nat)
    requires x >= m.n
    ensures x !in m.cols && x !in m.rowOf && m.n > 0
  {
    assert x in m.cols ==> m.ColumnShapeOk(x);
    assert x in m.rowOf ==> m.NodeOk(x);
  }

  /** Old places keep their nodes and columns, and the new places hold the new nodes. */
  lemma WithRowPlace(m: Layout, cs: seq<nat>, names: seq<int>, r: nat, p: nat)
    requires FourColumns(m, cs) && |names| == 4 && r <= |m.rows|
    requires p < (if r < |m.rows| then |m.rows[r]| else 4)
    ensures var w := WithRow(m, cs, names);
      && r < |w.rows| && p < |w.rows[r]| && w.PlaceOk(r, p)
      && (r < |m.rows| ==> m.PlaceOk(r, p) && w.rows[r] == m.rows[r] && w.colOf[w.rows[r][p]] == m.colOf[m.rows[r][p]])
      && (r == |m.rows| ==> |w.rows[r]| == 4 && w.colOf[w.rows[r][p]] == cs[p])
  {
    hide WithRow;
    WithRowBase(m, cs, names);
    if r < |m.rows| {
      assert m.RowOk(r) && m.PlaceOk(r, p);
      WithRowOld(m, cs, names, m.rows[r][p]);
    } else {
      WithRowNew(m, cs, names, p);
      assert WithRow(m, cs, names).rows[r][p] == m.n + p;
    }
  }

  lemma WithRowRow(m: Layout, cs: seq<nat>, names: seq<int>, r: nat)
    requires FourColumns(m, cs) && |names| == 4 && r <= |m.rows|
    ensures r < |WithRow(m, cs, names).rows| && WithRow(m, cs, names).RowOk(r)
  {
    hide WithRow;
    WithRowBase(m, cs, names);
    var w := WithRow(m, cs, names);
    var len := if r < |m.rows| then |m.rows[r]| else 4;
    assert |w.rows[r]| == len;
    assert r < |m.rows| ==> m.RowOk(r);
    forall p | 0 <= p < len
      ensures w.PlaceOk(r, p)
    {
      WithRowPlace(m, cs, names, r, p);
    }
    forall p, q | 0 <= p < len && 0 <= q < len && p != q
      ensures w.PlaceOk(r, p) && w.PlaceOk(r, q) && w.colOf[w.rows[r][p]] != w.colOf[w.rows[r][q]]
    {
      WithRowPlace(m, cs, names, r, p);
      WithRowPlace(m, cs, names, r, q);
    }
  }

  lemma WithRowOk(m: Layout, cs: seq<nat>, names: seq<int>)
    requires FourColumns(m, cs) && |names| == 4
    ensures WithRow(m, cs, names).Ok()
  {
    hide WithRow, Shape.NodeOk, Shape.RowOk, Shape.ColumnShapeOk;
    WithRowBase(m, cs, names);
    var w := WithRow(m, cs, names);
    forall c | c in w.cols
      ensures w.ColumnShapeOk(c)
    {
      assert m.ColumnShapeOk(c);
      WithRowColumn(m, cs, names, c);
    }
    forall x | x in w.rowOf
      ensures w.NodeOk(x)
    {
      WithRowNode(m, cs, names, x);
    }
    forall r | 0 <= r < |w.rows|
      ensures w.RowOk(r)
    {
      WithRowRow(m, cs, names, r);
    }
  }

  // ------------------------------------------------------------ the arena of a layout

  ghost predicate WholeColumn(m: Layout, s: seq<Node>, c: nat) {
    && c in m.members && c < |s|
    && VRing(s, [c] + m.members[c]) && s[c].size == |m.members[c]|
  }

  /** The arena in which no column is covered. */
  ghost predicate Whole(m: Layout, s: seq<Node>) {
    && Fixed(m, s) && HRing(s, [0] + m.cols)
    && forall c :: c in m.cols ==> WholeColumn(m, s, c)
  }

  lemma {:induction false} KeepAll(xs: seq<nat>, gone: set<nat>)
    requires forall x :: x in xs ==> x !in gone
    ensures Keep(xs, gone) == xs
  {
    if xs != [] {
      KeepAll(xs[1..], gone);
    }
  }

  lemma AllRowsInside(m: Layout, x: nat)
    requires x in m.rowOf
    ensures x !in Gone(m, m.Cols())
  {
    assert m.NodeOk(x);
    var r := m.rowOf[x];
    assert m.RowOk(r);
    forall p | 0 <= p < |m.rows[r]| && m.PlaceOk(r, p)
      ensures m.colOf[m.rows[r][p]] in m.Cols()
    {
      assert m.NodeOk(m.rows[r][p]);
    }
  }

  lemma WholeCanonical(m: Layout, s: seq<Node>)
    requires Whole(m, s)
    ensures Canonical(m, s, m.Cols())
  {
    KeepAll(m.cols, m.Cols() - m.Cols());
    forall c | c in m.Cols()
      ensures ColumnOk(m, s, c, Gone(m, m.Cols()))
    {
      assert WholeColumn(m, s, c) && m.ColumnShapeOk(c);
      forall x | x in m.members[c]
        ensures x !in Gone(m, m.Cols())
      {
        AllRowsInside(m, x);
      }
      KeepAll(m.members[c], Gone(m, m.Cols()));
    }
  }

  /** Every node of a column, the header included, has that column as its colour. */
  ghost function Colour(m: Layout): map<nat, nat> {
    map x | 0 <= x < m.n && (x in m.colOf || x in m.cols) :: if x in m.cols then x else m.colOf[x]
  }

  lemma WholePart(m: Layout, s: seq<Node>)
    requires Whole(m, s)
    ensures Part(s, m.n, m.cols, m.members, Colour(m))
    ensures forall c :: c in m.cols ==> 0 < c < m.n
  {
    forall c | c in m.cols
      ensures PartColumn(s, m.n, m.members, Colour(m), c) && 0 < c < m.n
    {
      assert WholeColumn(m, s, c) && m.ColumnShapeOk(c);
      forall x | x in m.members[c]
        ensures x < m.n && x != c && x in Colour(m) && Colour(m)[x] == c
      {
        assert m.NodeOk(x);
      }
      DistinctCons(c, m.members[c]);
    }
  }

  /** Appending an empty column. */
  lemma WithColumnWhole(m: Layout, s: seq<Node>, name: int, w: Layout)
    requires Whole(m, s) && m.n < |s| && w == WithColumn(m, name)
    ensures var s0 := s[m.n := Node(m.n, m.n, m.n, m.n, m.n, name, 0)];
      s0[0].left < |s| && s0[0].left != m.n && Whole(w, PutLeft(s0, 0, m.n))
  {
    hide Shape.Ok, Shape.NodeOk, Shape.RowOk;
    WholePart(m, s);
    var c := m.n;
    var s0 := s[c := Node(c, c, c, c, c, name, 0)];
    var ring := [0] + m.cols;
    HRingFrame(s, s0, ring);
    HeaderRingDistinct(m);
    PutLeftRing(s0, ring, c);
    PutLeftFrame(s0, 0, c);
    var t := PutLeft(s0, 0, c);
    assert [0] + w.cols == ring + [c];
    forall d | d in w.cols
      ensures WholeColumn(w, t, d)
    {
      if d == c {
        assert VLinked(t, [c], 0);
        assert [c] + w.members[c] == [c];
      } else {
        assert WholeColumn(m, s, d) && PartColumn(s, m.n, m.members, Colour(m), d);
        VRingFrame(s, t, [d] + m.members[d]);
      }
    }
    RowsKept(m, s, t);
  }

  lemma HeaderRingDistinct(m: Layout)
    ensures Distinct([0] + m.cols) && m.n > 0 && m.n !in [0] + m.cols
  {
    assert 0 in m.cols ==> m.ColumnShapeOk(0);
    assert m.n in m.cols ==> m.ColumnShapeOk(m.n);
    DistinctCons(0, m.cols);
  }

  lemma RowNodeIs(m: Layout, r: nat, x: nat)
    requires r < |m.rows| && x in m.rows[r]
    ensures x in m.rowOf && 0 < x < m.n && x !in m.cols
  {
    var p :| 0 <= p < |m.rows[r]| && m.rows[r][p] == x;
    assert m.RowOk(r) && m.PlaceOk(r, p) && m.NodeOk(x);
  }

  /** Old rows survive any change that leaves row nodes' horizontal links, columns and names alone. */
  lemma RowsKept(m: Layout, s: seq<Node>, t: seq<Node>)
    requires Fixed(m, s) && |t| == |s|
    requires forall i :: 0 < i < m.n && i < |s| && i !in m.cols ==>
      t[i].left == s[i].left && t[i].right == s[i].right
    requires forall i :: 0 <= i < m.n && i < |s| ==> t[i].col == s[i].col && t[i].name == s[i].name
    ensures Fixed(m, t)
  {
    forall r | 0 <= r < |m.rows|
      ensures HRing(t, m.rows[r])
    {
      forall x | x in m.rows[r] && x < |s|
        ensures t[x].left == s[x].left && t[x].right == s[x].right
      {
        RowNodeIs(m, r, x);
      }
      HRingFrame(s, t, m.rows[r]);
    }
    forall x | x in m.rowOf
      ensures t[x].col == m.colOf[x]
    {
      assert m.NodeOk(x);
    }
  }

  /** Members after the four appends. */
  ghost function Grown(members: map<nat, seq<nat>>, c: nat, x: nat): map<nat, seq<nat>> {
    if c in members then members[c := members[c] + [x]] else members
  }

  ghost function GrownFour(members: map<nat, seq<nat>>, cs: seq<nat>, n: nat): map<nat, seq<nat>>
    requires |cs| == 4
  {
    Grown(Grown(Grown(Grown(members, cs[0], n), cs[1], n + 1), cs[2], n + 2), cs[3], n + 3)
  }

  lemma GrownFourAt(members: map<nat, seq<nat>>, cs: seq<nat>, n: nat, c: nat)
    requires |cs| == 4 && Distinct(cs) && (forall k :: 0 <= k < 4 ==> cs[k] in members) && c in members
    ensures c in GrownFour(members, cs, n) && GrownFour(members, cs, n)[c] == members[c] + NewMembers(cs, c, n)
  {
    assert cs[0] != cs[1] && cs[0] != cs[2] && cs[0] != cs[3] && cs[1] != cs[2] && cs[1] != cs[3] && cs[2] != cs[3];
  }

  /** The finished row: four nodes in four columns, linked to each other. */
  lemma WithRowWhole(m: Layout, s: seq<Node>, t: seq<Node>, cs: seq<nat>, names: seq<int>, colour: map<nat, nat>,
      w: Layout)
    requires Whole(m, s) && FourColumns(m, cs) && |names| == 4 && w == WithRow(m, cs, names)
    requires |t| == |s| && m.n + 4 <= |s| && Part(t, m.n + 4, m.cols, GrownFour(m.members, cs, m.n), colour)
    requires forall i :: 0 <= i < m.n ==>
      t[i].left == s[i].left && t[i].right == s[i].right && t[i].col == s[i].col && t[i].name == s[i].name
    requires forall x :: m.n <= x < m.n + 4 ==> t[x].col == cs[x - m.n] && t[x].name == names[x - m.n]
    requires HRing(t, [m.n, m.n + 1, m.n + 2, m.n + 3])
    ensures Whole(w, t)
  {
    hide Shape.Ok, Shape.NodeOk, Shape.RowOk, GrownFour, NewMembers, WithRow;
    WithRowBase(m, cs, names);
    RowsKept(m, s, t);
    forall c | c in m.cols
      ensures WholeColumn(w, t, c)
    {
      assert PartColumn(t, m.n + 4, GrownFour(m.members, cs, m.n), colour, c);
      assert WholeColumn(m, s, c);
      GrownFourAt(m.members, cs, m.n, c);
    }
    forall r | 0 <= r < |w.rows|
      ensures HRing(t, w.rows[r])
    {
      assert r < |m.rows| ==> w.rows[r] == m.rows[r];
    }
    forall x | x in w.rowOf
      ensures x in w.colOf && x < |t| && t[x].col == w.colOf[x]
    {
      if x in m.rowOf {
        WithRowOld(m, cs, names, x);
      } else {
        WithRowNew(m, cs, names, x - m.n);
      }
    }
    NamesKept(m, s, t, cs, names);
  }

  lemma NamesKept(m: Layout, s: seq<Node>, t: seq<Node>, cs: seq<nat>, names: seq<int>)
    requires Fixed(m, s) && |cs| == 4 && |names| == 4 && |t| == |s| && m.n + 4 <= |s|
    requires forall i :: 0 <= i < m.n ==> t[i].name == s[i].name
    requires forall x :: m.n <= x < m.n + 4 ==> t[x].name == names[x - m.n]
    ensures var w := WithRow(m, cs, names);
      forall x :: x in w.nameOf ==> x < |t| && t[x].name == w.nameOf[x]
  {
    var w := WithRow(m, cs, names);
    forall x | x in w.nameOf
      ensures x < |t| && t[x].name == w.nameOf[x]
    {
    }
  }

  /** new_row may be applied to column c with the fresh node x. */
  ghost predicate CanNewRow(s: seq<Node>, x: nat, c: nat) {
    c < |s| && x < |s| && x != c && s[c].up < |s| && s[c].up != x
  }

  ghost predicate CanPutLeft(s: seq<Node>, h: nat, x: nat) {
    h < |s| && x < |s| && s[h].left < |s| && h != x && s[h].left != x
  }

  /** Nodes below n keep their horizontal links, columns and names. */
  ghost predicate KeptBelow(s: seq<Node>, t: seq<Node>, n: nat) {
    && |t| == |s| && n <= |s|
    && forall i :: 0 <= i < n ==>
        t[i].left == s[i].left && t[i].right == s[i].right && t[i].col == s[i].col && t[i].name == s[i].name
  }

  /** One of the four new_row calls: columns grow, nothing else below moves, and the fresh node
      is alone in its horizontal ring. */
  lemma FreshNode(s: seq<Node>, n: nat, cols: seq<nat>, members: map<nat, seq<nat>>, colour: map<nat, nat>, c: nat,
      name: int)
    requires Part(s, n, cols, members, colour) && c in cols && n < |s| && (forall d :: d in cols ==> d < n)
    ensures CanNewRow(s, n, c) && c in members
    ensures var t := NewRow(s, n, c, name);
      && Part(t, n + 1, cols, Grown(members, c, n), colour[n := c]) && KeptBelow(s, t, n)
      && t[n].left == n && t[n].right == n && t[n].col == c && t[n].name == name
  {
    hide Part;
    PartAppend(s, n, cols, members, colour, c, name);
    NewRowFrame(s, n, c, name);
  }

  /** The four new_row calls. */
  lemma FourFresh(m: Layout, s: seq<Node>, cs: seq<nat>, names: seq<int>)
    returns (s1: seq<Node>, s2: seq<Node>, s3: seq<Node>, s4: seq<Node>, colour: map<nat, nat>)
    requires Whole(m, s) && FourColumns(m, cs) && |names| == 4 && m.n + 4 <= |s|
    ensures CanNewRow(s, m.n, cs[0]) && s1 == NewRow(s, m.n, cs[0], names[0])
    ensures CanNewRow(s1, m.n + 1, cs[1]) && s2 == NewRow(s1, m.n + 1, cs[1], names[1])
    ensures CanNewRow(s2, m.n + 2, cs[2]) && s3 == NewRow(s2, m.n + 2, cs[2], names[2])
    ensures CanNewRow(s3, m.n + 3, cs[3]) && s4 == NewRow(s3, m.n + 3, cs[3], names[3])
    ensures Part(s4, m.n + 4, m.cols, GrownFour(m.members, cs, m.n), colour) && KeptBelow(s, s4, m.n)
    ensures forall x :: m.n <= x < m.n + 4 ==>
      s4[x].left == x && s4[x].right == x && s4[x].col == cs[x - m.n] && s4[x].name == names[x - m.n]
  {
    hide Part, Shape.Ok, NewRow, Whole, Colour, Grown;
    var n, c := m.n, Colour(m);
    WholePart(m, s);
    assert forall k :: 0 <= k < 4 ==> cs[k] in m.cols;
    FreshNode(s, n, m.cols, m.members, c, cs[0], names[0]);
    s1 := NewRow(s, n, cs[0], names[0]);
    var m1 := Grown(m.members, cs[0], n);
    FreshNode(s1, n + 1, m.cols, m1, c[n := cs[0]], cs[1], names[1]);
    s2 := NewRow(s1, n + 1, cs[1], names[1]);
    var m2 := Grown(m1, cs[1], n + 1);
    FreshNode(s2, n + 2, m.cols, m2, c[n := cs[0]][n + 1 := cs[1]], cs[2], names[2]);
    s3 := NewRow(s2, n + 2, cs[2], names[2]);
    var m3 := Grown(m2, cs[2], n + 2);
    FreshNode(s3, n + 3, m.cols, m3, c[n := cs[0]][n + 1 := cs[1]][n + 2 := cs[2]], cs[3], names[3]);
    s4 := NewRow(s3, n + 3, cs[3], names[3]);
    colour := c[n := cs[0]][n + 1 := cs[1]][n + 2 := cs[2]][n + 3 := cs[3]];
  }

  /** One of the three put_left calls: the row's ring grows by one node. */
  lemma LinkOne(s: seq<Node>, n: nat, cols: seq<nat>, members: map<nat, seq<nat>>, colour: map<nat, nat>,
      ring: seq<nat>, x: nat, low: nat)
    requires Part(s, n, cols, members, colour) && |ring| > 0 && HRing(s, ring) && Distinct(ring) && x !in ring
    requires forall y :: y in ring + [x] ==> low <= y < n
    requires 0 < low && forall d :: d in cols ==> d < low
    ensures CanPutLeft(s, ring[0], x)
    ensures var t := PutLeft(s, ring[0], x);
      && HRing(t, ring + [x]) && Distinct(ring + [x]) && Part(t, n, cols, members, colour) && KeptBelow(s, t, low)
      && (forall i :: 0 <= i < n ==> t[i].col == s[i].col && t[i].name == s[i].name)
      && (forall y :: 0 <= y < n && y !in ring + [x] ==> t[y].left == s[y].left && t[y].right == s[y].right)
  {
    assert ring[0] in ring + [x] && x in ring + [x];
    PutLeftRing(s, ring, x);
    var l := s[ring[0]].left;
    assert l in ring + [x];
    DistinctSnoc(ring, x);
    PutLeftFrame(s, ring[0], x);
    PartPutLeft(s, n, cols, members, colour, ring[0], x);
  }

  /** The three put_left calls. */
  lemma FourLinked(m: Layout, s4: seq<Node>, members: map<nat, seq<nat>>, colour: map<nat, nat>)
    returns (s5: seq<Node>, s6: seq<Node>, s7: seq<Node>)
    requires m.n + 4 <= |s4| && Part(s4, m.n + 4, m.cols, members, colour)
    requires forall x :: m.n <= x < m.n + 4 ==> s4[x].left == x && s4[x].right == x
    ensures CanPutLeft(s4, m.n, m.n + 1) && s5 == PutLeft(s4, m.n, m.n + 1)
    ensures CanPutLeft(s5, m.n, m.n + 2) && s6 == PutLeft(s5, m.n, m.n + 2)
    ensures CanPutLeft(s6, m.n, m.n + 3) && s7 == PutLeft(s6, m.n, m.n + 3)
    ensures |s7| == |s4| && HRing(s7, [m.n, m.n + 1, m.n + 2, m.n + 3])
    ensures Part(s7, m.n + 4, m.cols, members, colour) && KeptBelow(s4, s7, m.n)
    ensures forall i :: 0 <= i < m.n + 4 ==> s7[i].col == s4[i].col && s7[i].name == s4[i].name
  {
    hide Part, Shape.Ok, PutLeft, Distinct;
    var n := m.n;
    ColumnsBelow(m);
    assert HLinked(s4, [n], 0);
    DistinctSingle(n);
    LinkOne(s4, n + 4, m.cols, members, colour, [n], n + 1, n);
    s5 := PutLeft(s4, n, n + 1);
    assert [n] + [n + 1] == [n, n + 1];
    LinkOne(s5, n + 4, m.cols, members, colour, [n, n + 1], n + 2, n);
    s6 := PutLeft(s5, n, n + 2);
    assert [n, n + 1] + [n + 2] == [n, n + 1, n + 2];
    LinkOne(s6, n + 4, m.cols, members, colour, [n, n + 1, n + 2], n + 3, n);
    s7 := PutLeft(s6, n, n + 3);
    assert [n, n + 1, n + 2] + [n + 3] == [n, n + 1, n + 2, n + 3];
  }

  lemma DistinctSingle(x: nat)
    ensures Distinct([x])
  {
  }

  lemma ColumnsBelow(m: Layout)
    ensures 0 < m.n && forall c :: c in m.cols ==> 0 < c < m.n
  {
    forall c | c in m.cols
      ensures 0 < c < m.n
    {
      assert m.ColumnShapeOk(c);
    }
  }

  lemma WithRowNames(m: Layout, cs: seq<nat>, names: seq<int>)
    requires |cs| == 4 && |names| == 4
    ensures var w := WithRow(m, cs, names);
      && w.n == m.n + 4 && w.cols == m.cols
      && (forall x :: x in m.nameOf ==> x in w.nameOf && w.nameOf[x] == m.nameOf[x])
      && (forall x :: m.n <= x < m.n + 4 ==> x in w.nameOf && w.nameOf[x] == names[x - m.n])
  {
  }

  /** The seven arenas met while a row is appended, and the layout of the last one. */
  lemma AppendRowPlan(m: Layout, s: seq<Node>, cs: seq<nat>, names: seq<int>)
    returns (s1: seq<Node>, s2: seq<Node>, s3: seq<Node>, s4: seq<Node>, s5: seq<Node>, s6: seq<Node>, s7: seq<Node>,
             w: Layout)
    requires Whole(m, s) && FourColumns(m, cs) && |names| == 4 && m.n + 4 <= |s|
    ensures CanNewRow(s, m.n, cs[0]) && s1 == NewRow(s, m.n, cs[0], names[0])
    ensures CanNewRow(s1, m.n + 1, cs[1]) && s2 == NewRow(s1, m.n + 1, cs[1], names[1])
    ensures CanNewRow(s2, m.n + 2, cs[2]) && s3 == NewRow(s2, m.n + 2, cs[2], names[2])
    ensures CanNewRow(s3, m.n + 3, cs[3]) && s4 == NewRow(s3, m.n + 3, cs[3], names[3])
    ensures CanPutLeft(s4, m.n, m.n + 1) && s5 == PutLeft(s4, m.n, m.n + 1)
    ensures CanPutLeft(s5, m.n, m.n + 2) && s6 == PutLeft(s5, m.n, m.n + 2)
    ensures CanPutLeft(s6, m.n, m.n + 3) && s7 == PutLeft(s6, m.n, m.n + 3)
    ensures w == WithRow(m, cs, names) && Whole(w, s7)
  {
    hide Shape.Ok, Part, Whole, NewRow, PutLeft, WithRow, GrownFour, CanNewRow, CanPutLeft;
    var colour;
    s1, s2, s3, s4, colour := FourFresh(m, s, cs, names);
    s5, s6, s7 := FourLinked(m, s4, GrownFour(m.members, cs, m.n), colour);
    WithRowOk(m, cs, names);
    w := WithRow(m, cs, names);
    WithRowWhole(m, s, s7, cs, names, colour, w);
  }
}
