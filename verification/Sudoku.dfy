/** The sudoku solver of muduo's example: an arena of nodes, the exact-cover search over
    it, and the board it reads and fills in. */
module Sudoku {
  import opened Rings
  import opened DancingLinks
  import opened Building
  import opened SudokuMatrix
  import opened SudokuRules

  const MAX_NODES: nat := 1 + 81 * 4 + 9 * 9 * 9 * 4

  class SudokuSolver {
    const nodes: array<Node>
    const inout: array<int>
    const columns: array<nat>
    var stack: seq<nat>
    var cur: nat
    ghost var m: Layout
    ghost var place: seq<Placement>

    // Single-field writes into the arena.

    method SetLeft(i: nat, v: nat)
      requires i < nodes.Length
      modifies nodes
      ensures nodes[..] == old(nodes[..])[i := old(nodes[i]).(left := v)]
    {
      nodes[i] := nodes[i].(left := v);
    }

    method SetRight(i: nat, v: nat)
      requires i < nodes.Length
      modifies nodes
      ensures nodes[..] == old(nodes[..])[i := old(nodes[i]).(right := v)]
    {
      nodes[i] := nodes[i].(right := v);
    }

    method SetUp(i: nat, v: nat)
      requires i < nodes.Length
      modifies nodes
      ensures nodes[..] == old(nodes[..])[i := old(nodes[i]).(up := v)]
    {
      nodes[i] := nodes[i].(up := v);
    }

    method SetDown(i: nat, v: nat)
      requires i < nodes.Length
      modifies nodes
      ensures nodes[..] == old(nodes[..])[i := old(nodes[i]).(down := v)]
    {
      nodes[i] := nodes[i].(down := v);
    }

    method AddSize(i: nat, d: int)
      requires i < nodes.Length
      modifies nodes
      ensures nodes[..] == old(nodes[..])[i := old(nodes[i]).(size := old(nodes[i].size) + d)]
    {
      nodes[i] := nodes[i].(size := nodes[i].size + d);
    }

    // Building the matrix.

    method PutLeftNode(h: nat, x: nat)
      requires CanPutLeft(nodes[..], h, x)
      modifies nodes
      ensures nodes[..] == PutLeft(old(nodes[..]), h, x)
    {
      SetLeft(x, nodes[h].left);
      SetRight(x, h);
      SetRight(nodes[h].left, x);
      SetLeft(h, x);
    }

    method PutUpNode(c: nat, x: nat)
      requires CanNewRow(nodes[..], x, c)
      modifies nodes
      ensures nodes[..] == PutUp(old(nodes[..]), c, x)
    {
      SetUp(x, nodes[c].up);
      SetDown(x, c);
      SetDown(nodes[c].up, x);
      SetUp(c, x);
      AddSize(c, 1);
      nodes[x] := nodes[x].(col := c);
    }

    /** new_row, for a column that exists. */
    method NewRowNode(name: nat, ghost c: nat) returns (x: nat)
      requires name < columns.Length && columns[name] == c && CanNewRow(nodes[..], cur, c)
      modifies nodes, `cur
      ensures x == old(cur) && cur == x + 1 && nodes[..] == NewRow(old(nodes[..]), x, c, name)
    {
      x := cur;
      cur := cur + 1;
      nodes[x] := Node(x, x, x, x, columns[name], name, 0);
      PutUpNode(columns[name], x);
    }

    /** The four new_row calls for one candidate, through the arenas s1 to s4. */
    method NewRowNodes(names: seq<nat>, ghost cs: seq<nat>, ghost s1: seq<Node>, ghost s2: seq<Node>,
        ghost s3: seq<Node>)
    returns (n0: nat, nr: nat, nc: nat, nb: nat)
      requires |names| == |cs| == 4 && columns.Length == 400
      requires forall k :: 0 <= k < 4 ==> names[k] < 400 && columns[names[k]] == cs[k]
      requires CanNewRow(nodes[..], cur, cs[0]) && s1 == NewRow(nodes[..], cur, cs[0], names[0])
      requires CanNewRow(s1, cur + 1, cs[1]) && s2 == NewRow(s1, cur + 1, cs[1], names[1])
      requires CanNewRow(s2, cur + 2, cs[2]) && s3 == NewRow(s2, cur + 2, cs[2], names[2])
      requires CanNewRow(s3, cur + 3, cs[3])
      modifies nodes, `cur
      ensures cur == old(cur) + 4 && (n0, nr, nc, nb) == (old(cur), old(cur) + 1, old(cur) + 2, old(cur) + 3)
      ensures nodes[..] == NewRow(s3, nb, cs[3], names[3])
    {
      hide NewRow;
      n0 := NewRowNode(names[0], cs[0]);
      nr := NewRowNode(names[1], cs[1]);
      nc := NewRowNode(names[2], cs[2]);
      nb := NewRowNode(names[3], cs[3]);
    }

    /** The three put_left calls for one candidate, through the arenas s5 and s6. */
    method LinkRowNodes(n0: nat, nr: nat, nc: nat, nb: nat, ghost s5: seq<Node>, ghost s6: seq<Node>)
      requires CanPutLeft(nodes[..], n0, nr) && s5 == PutLeft(nodes[..], n0, nr)
      requires CanPutLeft(s5, n0, nc) && s6 == PutLeft(s5, n0, nc) && CanPutLeft(s6, n0, nb)
      modifies nodes
      ensures nodes[..] == PutLeft(s6, n0, nb)
    {
      hide PutLeft;
      PutLeftNode(n0, nr);
      PutLeftNode(n0, nc);
      PutLeftNode(n0, nb);
    }

    /** While the matrix is built: nothing is covered, the arena is filled up to cur, and
        columns maps the name of every column to its header. */
    ghost predicate Growing()
      reads this, nodes, columns
    {
      && m.n == cur && Whole(m, nodes[..])
      && NamesOk(m, columns[..])
    }

    method AppendColumn(name: nat)
      requires Growing() && name < 400 && columns[name] == 0 && cur < nodes.Length
      modifies nodes, columns, `cur, `m
      ensures Growing() && cur == old(cur) + 1 && m == WithColumn(old(m), name)
      ensures columns[..] == old(columns[..])[name := old(cur)]
    {
      var c := cur;
      ghost var s := nodes[..];
      WithColumnOk(m, name);
      ghost var w: Layout := WithColumn(m, name);
      WithColumnWhole(m, s, name, w);
      ColumnsBelow(m);
      hide Whole, Shape.Ok;
      nodes[c] := Node(c, c, c, c, c, name, 0);
      cur := cur + 1;
      assert nodes[..] == s[c := Node(c, c, c, c, c, name, 0)];
      PutLeftNode(0, c);
      columns[name] := c;
      m := w;
    }

    /** One candidate: new_row for its four columns, then the three put_left calls. */
    method AppendRowNodes(names: seq<nat>, ghost cs: seq<nat>) returns (ghost w: Layout)
      requires m.n == cur && Whole(m, nodes[..]) && cur + 4 <= nodes.Length && columns.Length == 400
      requires |names| == 4 && FourColumns(m, cs)
      requires forall k :: 0 <= k < 4 ==> names[k] < 400 && columns[names[k]] == cs[k]
      modifies nodes, `cur
      ensures cur == old(cur) + 4 && w == WithRow(m, cs, names) && Whole(w, nodes[..])
    {
      hide Whole, Shape.Ok, NewRow, PutLeft, WithRow, Distinct;
      ghost var s1, s2, s3, s4, s5, s6, s7;
      s1, s2, s3, s4, s5, s6, s7, w := AppendRowPlan(m, nodes[..], cs, names);
      var n0, nr, nc, nb := NewRowNodes(names, cs, s1, s2, s3);
      LinkRowNodes(n0, nr, nc, nb, s5, s6);
    }

    method AppendRow(names: seq<nat>, ghost cv: Placement, ghost cs: seq<nat>)
      requires Growing() && cur + 4 <= nodes.Length && columns.Length == 400
      requires |names| == 4 && FourColumns(m, cs)
      requires forall k :: 0 <= k < 4 ==> names[k] < 400 && columns[names[k]] == cs[k]
      modifies nodes, `cur, `m, `place
      ensures Growing() && cur == old(cur) + 4 && place == old(place) + [cv] && m == WithRow(old(m), cs, names)
    {
      hide Whole, Shape.Ok, WithRow, NamesOk;
      ghost var w := AppendRowNodes(names, cs);
      WithRowNamesOk(m, cs, names, w, columns[..]);
      m := w;
      place := place + [cv];
    }

    /** Marks the digits that each row, column and box of the board already holds. */
    method MarkGivens() returns (rows: array2<bool>, cols: array2<bool>, boxes: array2<bool>)
      requires inout.Length == 81 && Board(inout[..])
      ensures Marked(inout[..], 1, rows, 81) && Marked(inout[..], 2, cols, 81) && Marked(inout[..], 3, boxes, 81)
      ensures fresh(rows) && fresh(cols) && fresh(boxes)
    {
      hide UnitOf, OccursBefore;
      rows := NoMarks(inout[..], 1);
      cols := NoMarks(inout[..], 2);
      boxes := NoMarks(inout[..], 3);
      for i := 0 to 81
        invariant fresh(rows) && fresh(cols) && fresh(boxes) && rows != cols && rows != boxes && cols != boxes
        invariant Marked(inout[..], 1, rows, i) && Marked(inout[..], 2, cols, i) && Marked(inout[..], 3, boxes, i)
      {
        var row := i / 9;
        var col := i % 9;
        var box := row / 3 * 3 + col / 3;
        var val := inout[i];
        Units(i);
        Mark(inout[..], 1, rows, i, row, val);
        Mark(inout[..], 2, cols, i, col, val);
        Mark(inout[..], 3, boxes, i, box, val);
      }
    }

    /** append_column, unless the digit is already there. */
    method AppendUnless(present: bool, name: nat)
      requires
        && Growing() && name < 400 && columns.Length == 400 && columns[name] == 0 && cur < nodes.Length && m.rows == []
      modifies nodes, columns, `cur, `m
      ensures Growing() && cur <= old(cur) + 1 && m.rows == []
      ensures columns[..] == old(columns[..])[name := columns[name]] && (columns[name] != 0 <==> !present)
    {
      ColumnsBelow(m);
      hide Whole, NamesOk, Shape.Ok;
      if !present {
        AppendColumn(name);
      }
    }

    method AddCellColumns()
      requires
        && Growing() && columns.Length == 400 && nodes.Length == MAX_NODES && inout.Length == 81 && cur == 1
        && m.rows == []
      requires forall k :: 0 <= k < 400 ==> columns[k] == 0
      modifies nodes, columns, `cur, `m
      ensures Growing() && cur <= 82 && m.rows == [] && ColumnsDone(inout[..], columns[..], 0, 1)
    {
      hide Whole, NamesOk, Shape.Ok;
      for i := 0 to 81
        invariant Growing() && cur <= 1 + i && m.rows == []
        invariant forall k :: 0 <= k < 400 ==> (columns[k] != 0 <==> k < i && inout[k] == 0)
      {
        AppendUnless(inout[i] != 0, i);
      }
      NoUnitsYet(inout[..], columns[..]);
    }

    method AddUnitColumns(rows: array2<bool>, cols: array2<bool>, boxes: array2<bool>)
      requires
        && Growing() && columns.Length == 400 && nodes.Length == MAX_NODES && inout.Length == 81 && cur <= 82
        && m.rows == []
      requires ColumnsDone(inout[..], columns[..], 0, 1)
      requires Marked(inout[..], 1, rows, 81) && Marked(inout[..], 2, cols, 81) && Marked(inout[..], 3, boxes, 81)
      modifies nodes, columns, `cur, `m
      ensures Growing() && cur <= 325 && m.rows == [] && ColumnsDone(inout[..], columns[..], 9, 1)
    {
      hide Whole, NamesOk, Shape.Ok, ColumnsDone, Marked;
      for i := 0 to 9
        invariant Growing() && cur <= 82 + 27 * i && m.rows == [] && ColumnsDone(inout[..], columns[..], i, 1)
      {
        for v := 1 to 10
          invariant
            && Growing() && cur <= 82 + 27 * i + 3 * (v - 1) && m.rows == []
            && ColumnsDone(inout[..], columns[..], i, v)
        {
          AddThreeColumns(rows, cols, boxes, i, v);
        }
        ColumnsNextUnit(inout[..], columns[..], i);
      }
    }

    method AddThreeColumns(rows: array2<bool>, cols: array2<bool>, boxes: array2<bool>, i: nat, v: nat)
      requires Growing() && columns.Length == 400 && nodes.Length >= cur + 3 && inout.Length == 81 && m.rows == []
      requires i < 9 && 1 <= v < 10 && ColumnsDone(inout[..], columns[..], i, v)
      requires Marked(inout[..], 1, rows, 81) && Marked(inout[..], 2, cols, 81) && Marked(inout[..], 3, boxes, 81)
      modifies nodes, columns, `cur, `m
      ensures Growing() && cur <= old(cur) + 3 && m.rows == [] && ColumnsDone(inout[..], columns[..], i, v + 1)
    {
      hide Whole, NamesOk, Shape.Ok, ColumnsDone;
      ghost var b, c0 := inout[..], columns[..];
      NotYet(b, c0, i, v);
      assert rows[i, v] <==> Occurs(b, 1, i, v);
      assert cols[i, v] <==> Occurs(b, 2, i, v);
      assert boxes[i, v] <==> Occurs(b, 3, i, v);
      hide Marked;
      AppendUnless(rows[i, v], 100 + i * 10 + v);
      AppendUnless(cols[i, v], 200 + i * 10 + v);
      AppendUnless(boxes[i, v], 300 + i * 10 + v);
      ColumnsNext(b, c0, columns[..], i, v);
    }

    method AddRows(rows: array2<bool>, cols: array2<bool>, boxes: array2<bool>)
      requires Growing() && nodes.Length == MAX_NODES && inout.Length == 81 && columns.Length == 400 && cur <= 325
      requires m.rows == [] && place == [] && ColumnsDone(inout[..], columns[..], 9, 1)
      requires Marked(inout[..], 1, rows, 81) && Marked(inout[..], 2, cols, 81) && Marked(inout[..], 3, boxes, 81)
      modifies nodes, `cur, `m, `place
      ensures Growing() && RowsDone(m, columns[..], place, inout[..], 81, 1)
    {
      hide Whole, NamesOk, Shape.Ok, ColumnsDone, Marked, RowsDone;
      NoRowsYet(m, columns[..], place, inout[..]);
      for i := 0 to 81
        invariant Growing() && cur <= 325 + 36 * i && RowsDone(m, columns[..], place, inout[..], i, 1)
      {
        if inout[i] == 0 {
          for v := 1 to 10
            invariant Growing() && cur <= 325 + 36 * i + 4 * (v - 1) && RowsDone(m, columns[..], place, inout[..], i, v)
          {
            AddCandidate(rows, cols, boxes, i, v);
          }
        } else {
          SkipCell(m, columns[..], place, inout[..], i);
        }
        RowsNextCell(m, columns[..], place, inout[..], i);
      }
    }

    /** A row for (i, v), unless v is already in the row, column or box of cell i. */
    method AddCandidate(rows: array2<bool>, cols: array2<bool>, boxes: array2<bool>, i: nat, v: nat)
      requires Growing() && inout.Length == 81 && columns.Length == 400 && cur + 4 <= nodes.Length
      requires i < 81 && inout[i] == 0 && 1 <= v < 10
      requires ColumnsDone(inout[..], columns[..], 9, 1) && RowsDone(m, columns[..], place, inout[..], i, v)
      requires Marked(inout[..], 1, rows, 81) && Marked(inout[..], 2, cols, 81) && Marked(inout[..], 3, boxes, 81)
      modifies nodes, `cur, `m, `place
      ensures Growing() && cur <= old(cur) + 4 && RowsDone(m, columns[..], place, inout[..], i, v + 1)
    {
      hide Whole, NamesOk, Shape.Ok, ColumnsDone, RowsDone;
      ghost var b, cv: Placement := inout[..], (i, v);
      var row := i / 9;
      var col := i % 9;
      var box := row / 3 * 3 + col / 3;
      Units(i);
      assert rows[row, v] <==> Occurs(b, 1, row, v);
      assert cols[col, v] <==> Occurs(b, 2, col, v);
      assert boxes[box, v] <==> Occurs(b, 3, box, v);
      assert inout[i] == b[i];
      hide Marked, UnitOf, Occurs;
      if !(rows[row, v] || cols[col, v] || boxes[box, v]) {
        ghost var m0, place0 := m, place;
        var names := [i, 100 + row * 10 + v, 200 + col * 10 + v, 300 + box * 10 + v];
        ghost var cs := CandidateColumns(m, columns[..], b, cv, names);
        AppendRow(names, cv, cs);
        RowsNext(m0, cs, names, m, columns[..], place0, b, cv);
      } else {
        RowsSkip(m, columns[..], place, b, cv);
      }
    }

    /** Reads the board and builds its matrix. */
    constructor (board: array<int>)
      requires board.Length == 81 && Board(board[..])
      ensures inout == board && stack == [] && fresh(nodes)
      ensures Whole(m, nodes[..]) && MatrixFor(m, columns[..], place, board[..]) && BoardOk()
    {
      nodes := new Node[MAX_NODES](_ => Node(0, 0, 0, 0, 0, 0, 0));
      columns := new nat[400](_ => 0);
      inout := board;
      stack := [];
      place := [];
      m := Shape(1, [], [], map[], map[], map[], map[], map[]);
      cur := 1;
      new;
      hide Whole, NamesOk, Shape.Ok, RowsDone, ColumnsDone, Marked, MatrixFor, RowNamed;
      RootOnly(m, nodes[..]);
      var rows, cols, boxes := MarkGivens();
      AddCellColumns();
      AddUnitColumns(rows, cols, boxes);
      AddRows(rows, cols, boxes);
      MatrixDone(m, columns[..], place, inout[..]);
      MatrixNamed(m, columns[..], place, inout[..]);
    }

    /** The three writes that cover() does for one node of a row. */
    method UnlinkNode(j: nat)
      requires CanV(nodes[..], j)
      modifies nodes
      ensures nodes[..] == UnlinkV(old(nodes[..]), j)
    {
      SetUp(nodes[j].down, nodes[j].up);
      SetDown(nodes[j].up, nodes[j].down);
      AddSize(nodes[j].col, -1);
    }

    /** The three writes that uncover() does for one node of a row. */
    method RelinkNode(j: nat)
      requires CanV(nodes[..], j)
      modifies nodes
      ensures nodes[..] == RelinkV(old(nodes[..]), j)
    {
      AddSize(nodes[j].col, 1);
      SetUp(nodes[j].down, j);
      SetDown(nodes[j].up, j);
    }

    /** The two writes that take a header out of the header ring, and those that put it back. */
    method UnlinkHeader(c: nat)
      requires CanH(nodes[..], c)
      modifies nodes
      ensures nodes[..] == UnlinkH(old(nodes[..]), c)
    {
      SetLeft(nodes[c].right, nodes[c].left);
      SetRight(nodes[c].left, nodes[c].right);
    }

    method RelinkHeader(c: nat)
      requires CanH(nodes[..], c)
      modifies nodes
      ensures nodes[..] == RelinkH(old(nodes[..]), c)
    {
      SetLeft(nodes[c].right, c);
      SetRight(nodes[c].left, c);
    }

    /** The inner loop of cover(): unlinks every other node of one row. */
    method CoverRow(row: nat, ghost r: RowTrace)
      requires row == r.x && nodes[..] == r.st[0]
      modifies nodes
      ensures nodes[..] == r.st[|r.others|]
    {
      var j := nodes[row].right;
      ghost var q: nat := 0;
      while j != row
        invariant q <= |r.others| && j == At(r.others, q, row) && nodes[..] == r.st[q]
        decreases |r.others| - q
      {
        assert r.Step(q);
        UnlinkNode(j);
        j := nodes[j].right;
        q := q + 1;
      }
    }

    /** The inner loop of uncover(): relinks the other nodes of one row, last one first. */
    method UncoverRow(row: nat, ghost r: RowTrace)
      requires row == r.x && nodes[..] == r.st[|r.others|]
      modifies nodes
      ensures nodes[..] == r.st[0]
    {
      var j := nodes[row].left;
      ghost var q: nat := |r.others|;
      while j != row
        invariant q <= |r.others| && j == (if q == 0 then row else r.others[q - 1]) && nodes[..] == r.st[q]
        decreases q
      {
        q := q - 1;
        assert r.Step(q);
        RelinkNode(j);
        j := nodes[j].left;
      }
    }

    /** cover(): the header, then every row from top to bottom. */
    method CoverAlong(c: nat, ghost g: ColumnRun)
      requires g.Ok() && c == g.c && nodes[..] == g.s
      modifies nodes
      ensures nodes[..] == g.bs[|g.l|]
    {
      UnlinkHeader(c);
      var row := nodes[c].down;
      ghost var i: nat := 0;
      while row != c
        invariant i <= |g.l| && row == At(g.l, i, c) && nodes[..] == g.bs[i]
        decreases |g.l| - i
      {
        assert g.Step(i);
        CoverRow(row, g.runs[i]);
        row := nodes[row].down;
        i := i + 1;
      }
      assert i < |g.l| ==> g.Step(i);
    }

    /** uncover(): every row from bottom to top, then the header. */
    method UncoverAlong(c: nat, ghost g: ColumnRun)
      requires g.Ok() && c == g.c && nodes[..] == g.bs[|g.l|]
      modifies nodes
      ensures nodes[..] == g.s
    {
      var row := nodes[c].up;
      ghost var i: nat := |g.l|;
      while row != c
        invariant i <= |g.l| && row == (if i == 0 then c else g.l[i - 1]) && nodes[..] == g.bs[i]
        decreases i
      {
        i := i - 1;
        assert g.Step(i);
        UncoverRow(row, g.runs[i]);
        row := nodes[row].up;
      }
      assert i > 0 ==> g.Step(i - 1);
      RelinkHeader(c);
    }

    /** Removes column c from the header ring and every row using c from its other columns. */
    method Cover(c: nat, ghost v: Arena)
      requires v.m == m && v.s == nodes[..] && c in v.a
      modifies nodes
      ensures nodes[..] == CoverOf(v, c).s
    {
      CoverTrace(v, c);
      CoverAlong(c, ColumnStates(v, c));
    }

    /** Undoes Cover: whatever arena v the column was covered in comes back, link by link. */
    method Uncover(c: nat, ghost v: Arena)
      requires v.m == m && c in v.a && nodes[..] == CoverOf(v, c).s
      modifies nodes
      ensures nodes[..] == v.s
    {
      CoverTrace(v, c);
      UncoverAlong(c, ColumnStates(v, c));
    }

    /** The loop of solve() that covers the other columns of a chosen row. */
    method ChooseRow(row: nat, ghost v: Arena)
      requires v.m == m && v.s == nodes[..] && Choosable(m, v.a, row)
      modifies nodes
      ensures nodes[..] == Branch(v, row, |Others(m, row)|).s
    {
      hide Canonical, Shape.Ok, Others, CoverOf, Cut;
      ghost var o := Others(m, row);
      RowEnds(v, row);
      var j := nodes[row].right;
      ghost var q: nat := 0;
      while j != row
        invariant q <= |o| && j == At(o, q, row) && nodes[..] == Branch(v, row, q).s
        decreases |o| - q
      {
        BranchStep(v, row, q);
        RowWalk(Branch(v, row, q), row, q);
        Cover(nodes[j].col, Branch(v, row, q));
        q := q + 1;
        RowWalk(Branch(v, row, q), row, q - 1);
        j := nodes[j].right;
      }
      if q < |o| {
        RowWalk(Branch(v, row, q), row, q);
      }
    }

    /** The loop of solve() that uncovers them again, last one first. */
    method UnchooseRow(row: nat, ghost v: Arena)
      requires v.m == m && Choosable(m, v.a, row) && nodes[..] == Branch(v, row, |Others(m, row)|).s
      modifies nodes
      ensures nodes[..] == v.s
    {
      hide Canonical, Shape.Ok, Others, CoverOf, Cut;
      ghost var o := Others(m, row);
      RowEnds(Branch(v, row, |o|), row);
      var j := nodes[row].left;
      ghost var q: nat := |o|;
      while j != row
        invariant q <= |o| && j == (if q == 0 then row else o[q - 1]) && nodes[..] == Branch(v, row, q).s
        decreases q
      {
        q := q - 1;
        BranchStep(v, row, q);
        RowWalk(Branch(v, row, q + 1), row, q);
        Uncover(nodes[j].col, Branch(v, row, q));
        RowWalk(Branch(v, row, q), row, q);
        j := nodes[j].left;
      }
      if q > 0 {
        RowWalk(Branch(v, row, q), row, q - 1);
      }
    }

    /** A column with the fewest linked rows, or one with at most one. */
    method GetMinColumn(ghost v: Arena) returns (c: nat)
      requires v.m == m && v.s == nodes[..] && v.a != {}
      ensures c in v.a && c in m.cols
      ensures |Linked(m, v.a, c)| <= 1 || forall d :: d in v.a ==> |Linked(m, v.a, c)| <= |Linked(m, v.a, d)|
    {
      hide Canonical, Shape.Ok, Linked, Headers;
      ghost var h := Headers(m, v.a);
      HeadersOf(v);
      HeaderWalk(v, 0);
      c := nodes[0].right;
      ColumnSize(v, c);
      var minSize := nodes[c].size;
      if minSize > 1 {
        HeaderWalk(v, 1);
        var cc := nodes[c].right;
        ghost var i: nat := 2;
        while cc != 0
          invariant 2 <= i <= |h| && cc == At(h, i, 0) && c in v.a
          invariant c in m.cols && minSize == |Linked(m, v.a, c)|
          invariant minSize > 1
          invariant forall k :: 1 <= k < i ==> h[k] in m.cols && minSize <= |Linked(m, v.a, h[k])|
          decreases |h| - i
        {
          ColumnSize(v, cc);
          HeaderWalk(v, i);
          if minSize > nodes[cc].size {
            c := cc;
            minSize := nodes[cc].size;
            if minSize <= 1 {
              break;
            }
          }
          cc := nodes[cc].right;
          i := i + 1;
        }
      }
    }

    /** Walks right from a stacked node until both the cell and the value of its row are known. */
    method ReadRow(n0: nat, ghost v: Arena, ghost cv: Placement) returns (cell: int, val: int)
      requires v.m == m && v.s == nodes[..] && n0 in m.rowOf && RowNamed(m, n0, cv)
      ensures (cell, val) == cv
    {
      hide Canonical, Shape.Ok, Others;
      ghost var ring := [n0] + Others(m, n0);
      var n := n0;
      cell, val := -1, -1;
      ghost var k: nat := 0;
      while cell == -1 || val == -1
        invariant k <= |ring| && n == At(ring, k, n0)
        invariant cell == -1 ==> forall i :: 0 <= i < k ==> ring[i] in m.nameOf && m.nameOf[ring[i]] >= 100
        invariant val == -1 ==> forall i :: 0 <= i < k ==> ring[i] in m.nameOf && m.nameOf[ring[i]] < 100
        invariant cell == -1 || cell == cv.0
        invariant val == -1 || val == cv.1
        decreases |ring| - k
      {
        RowNodeName(v, n0, n, cv, k);
        if nodes[n].name < 100 {
          cell := nodes[n].name;
        } else {
          val := nodes[n].name % 10;
        }
        n := nodes[n].right;
        k := k + 1;
      }
    }

    /** What solve() needs and keeps: rows named by their cell and value, on a full board. */
    ghost predicate BoardOk()
      reads `m, `place
    {
      && inout.Length == 81
      && |place| == |m.rows|
      && (forall x :: x in m.rowOf ==>
        m.rowOf[x] < |place| && place[m.rowOf[x]].0 < 81 && RowNamed(m, x, place[m.rowOf[x]]))
    }

    /** The loop of solve() that writes the stacked rows into the board. */
    method FillBoard(ghost v: Arena)
      requires v.m == m && v.s == nodes[..] && BoardOk()
      requires forall x :: x in stack ==> x in m.rowOf
      modifies inout
      ensures inout[..] == Filled(m, place, stack, old(inout[..]))
    {
      hide Canonical, Shape.Ok, RowNamed;
      for i := 0 to |stack|
        invariant inout[..] == Filled(m, place, stack[..i], old(inout[..]))
      {
        var x := stack[i];
        assert x in stack && stack[..i + 1][..i] == stack[..i] && stack[..i + 1][i] == x;
        assert m.rowOf[x] < |place| && place[m.rowOf[x]].0 < 81;
        var cell, val := ReadRow(x, v, place[m.rowOf[x]]);
        inout[cell] := val;
      }
      assert stack[..|stack|] == stack;
    }

    /** The search: false means no set of rows covers the uncovered columns exactly, and then
        the arena, the stack and the board are as they were; true means the stacked rows cover
        every column exactly once, and the board holds their cells and values. */
    method Solve(ghost v: Arena) returns (ok: bool)
      requires v.m == m && v.s == nodes[..] && StackOk(m, stack, v.a) && BoardOk()
      modifies nodes, inout, `stack
      ensures !ok ==> nodes[..] == v.s && stack == old(stack) && inout[..] == old(inout[..]) && NoCover(m, v.a)
      ensures ok ==> StackOk(m, stack, {}) && inout[..] == Filled(m, place, stack, old(inout[..]))
      decreases |v.a|
    {
      hide Canonical, Shape.Ok, Linked, StackOk, BoardOk, NoCover, NoCoverWith, Choosable, CoverOf, Branch, Others,
        RowCols, Filled;
      RootAlone(v);
      if nodes[0].left == 0 {
        StackNodes(m, stack, v.a);
        FillBoard(v);
        return true;
      }
      var col := GetMinColumn(v);
      Cover(col, v);
      ghost var l := Linked(m, v.a, col);
      CoveredWalk(v, col, 0);
      var row := nodes[col].down;
      ghost var i: nat := 0;
      while row != col
        invariant i <= |l| && row == At(l, i, col)
        invariant nodes[..] == CoverOf(v, col).s && stack == old(stack) && inout[..] == old(inout[..])
        invariant forall k :: 0 <= k < i ==> l[k] in m.rowOf && NoCoverWith(m, v.a, m.rowOf[l[k]])
        decreases |l| - i
      {
        assert l[i] in l;
        ghost var b := LinkedBranch(v, col, row);
        StackPush(m, stack, v.a, row);
        ok := TryRow(row, v, CoverOf(v, col), b);
        if ok {
          return;
        }
        BranchRefuted(m, v.a, m.rowOf[row]);
        CoveredWalk(v, col, i);
        row := nodes[row].down;
        i := i + 1;
      }
      AllBranchesRefuted(v, col);
      Uncover(col, v);
      return false;
    }

    /** One iteration of the row loop of solve(): b is the arena in which row's columns are covered. */
    method TryRow(row: nat, ghost v: Arena, ghost w: Arena, ghost b: Arena)
    returns (ok: bool)
      requires v.m == w.m == b.m == m && w.s == nodes[..] && |b.a| < |v.a|
      requires Choosable(m, w.a, row) && b == Branch(w, row, |Others(m, row)|)
      requires StackOk(m, stack + [row], b.a) && BoardOk()
      modifies nodes, inout, `stack
      ensures !ok ==> nodes[..] == w.s && stack == old(stack) && inout[..] == old(inout[..]) && NoCover(m, b.a)
      ensures ok ==> StackOk(m, stack, {}) && inout[..] == Filled(m, place, stack, old(inout[..]))
      decreases |v.a|, 0
    {
      hide Canonical, Shape.Ok, StackOk, BoardOk, NoCover, Choosable, Branch, Filled, Others;
      stack := stack + [row];
      ChooseRow(row, w);
      ok := Solve(b);
      if ok {
        return;
      }
      stack := stack[..|stack| - 1];
      UnchooseRow(row, w);
    }
  }

  lemma WithRowNamesOk(m: Layout, cs: seq<nat>, names: seq<int>, w: Layout, columns: seq<nat>)
    requires NamesOk(m, columns) && |cs| == 4 && |names| == 4 && w == WithRow(m, cs, names)
    ensures NamesOk(w, columns) && w.n == m.n + 4
  {
    WithRowNames(m, cs, names);
    hide WithRow, Shape.Ok;
  }

  lemma StackNodes(m: Layout, stack: seq<nat>, a: set<nat>)
    requires StackOk(m, stack, a)
    ensures forall x :: x in stack ==> x in m.rowOf
  {
  }

  /** The names in x's row give exactly one cell and one value: a name below 100 is the cell,
      any other name ends in the value, and both kinds occur. */
  ghost predicate RowNamed(m: Layout, x: nat, cv: Placement)
    requires x in m.rowOf
  {
    var ring := [x] + Others(m, x);
    && (forall i :: 0 <= i < |ring| ==> NameFits(m, ring[i], cv))
    && (exists i :: 0 <= i < |ring| && ring[i] in m.nameOf && m.nameOf[ring[i]] < 100)
    && (exists i :: 0 <= i < |ring| && ring[i] in m.nameOf && m.nameOf[ring[i]] >= 100)
  }

  ghost predicate NameFits(m: Layout, x: nat, cv: Placement) {
    && x in m.nameOf && m.nameOf[x] >= 0
    && if m.nameOf[x] < 100 then m.nameOf[x] == cv.0 else m.nameOf[x] % 10 == cv.1
  }

  lemma RowNodeName(v: Arena, x: nat, n: nat, cv: Placement, k: nat)
    requires x in v.m.rowOf && RowNamed(v.m, x, cv)
    requires k <= |Others(v.m, x)| && n == ([x] + Others(v.m, x))[k]
    ensures n < |v.s| && v.s[n].right == At([x] + Others(v.m, x), k + 1, x)
    ensures NameFits(v.m, n, cv) && v.s[n].name == v.m.nameOf[n]
  {
    hide Shape.Ok, Others;
    var ring := [x] + Others(v.m, x);
    assert NameFits(v.m, ring[k], cv);
    if k == 0 {
      RowEnds(v, x);
    } else {
      RowWalk(v, x, k - 1);
    }
  }

  ghost predicate OccursBefore(b: seq<int>, kind: nat, u: nat, v: int, n: nat)
    requires n <= |b|
  {
    exists i :: 0 <= i < n && b[i] == v && UnitOf(kind, i) == u
  }

  /** marks[u, v] tells whether digit v stands in unit u in one of the first n cells. */
  ghost predicate Marked(b: seq<int>, kind: nat, marks: array2<bool>, n: nat)
    requires n <= |b|
    reads marks
  {
    && marks.Length0 == 81 && marks.Length1 == 10
    && forall u, v :: 0 <= u < 81 && 0 <= v < 10 ==> (marks[u, v] <==> OccursBefore(b, kind, u, v, n))
  }

  lemma Units(i: nat)
    requires i < 81
    ensures UnitOf(1, i) == i / 9 < 9 && UnitOf(2, i) == i % 9 < 9 && UnitOf(3, i) == i / 9 / 3 * 3 + i % 9 / 3 < 9
  {
  }

  method NoMarks(ghost b: seq<int>, ghost kind: nat) returns (marks: array2<bool>)
    ensures fresh(marks) && Marked(b, kind, marks, 0)
  {
    marks := new bool[81, 10]((_, _) => false);
  }

  lemma OccursNext(b: seq<int>, kind: nat, u: nat, v: int, n: nat)
    requires n < |b|
    ensures OccursBefore(b, kind, u, v, n + 1)
      <==> OccursBefore(b, kind, u, v, n) || (b[n] == v && UnitOf(kind, n) == u)
  {
  }

  method Mark(ghost b: seq<int>, ghost kind: nat, marks: array2<bool>, ghost n: nat, u: nat, v: int)
    requires n < |b| == 81 && 0 <= v < 10 && b[n] == v && UnitOf(kind, n) == u && u < 9 && Marked(b, kind, marks, n)
    modifies marks
    ensures Marked(b, kind, marks, n + 1)
  {
    hide UnitOf, OccursBefore;
    marks[u, v] := true;
    forall x, y | 0 <= x < 81 && 0 <= y < 10
      ensures marks[x, y] <==> OccursBefore(b, kind, x, y, n + 1)
    {
      OccursNext(b, kind, x, y, n);
    }
  }

  // ------------------------------------------------------------ which columns exist so far

  /** The column named k is needed, and lies before (i, v) in the order the columns are added. */
  ghost predicate DueBefore(b: seq<int>, k: nat, i: nat, v: nat)
    requires |b| == 81
  {
    || (k < 81 && b[k] == 0)
    || (NeededUnit(b, k / 100, k / 10 % 10, k % 10, k) && (k / 10 % 10 < i || (k / 10 % 10 == i && k % 10 < v)))
  }

  ghost predicate ColumnsDone(b: seq<int>, columns: seq<nat>, i: nat, v: nat) {
    |b| == 81 && |columns| == 400 && forall k :: 0 <= k < 400 ==> (columns[k] != 0 <==> DueBefore(b, k, i, v))
  }

  lemma NoUnitsYet(b: seq<int>, columns: seq<nat>)
    requires |b| == 81 && |columns| == 400
    requires forall k :: 0 <= k < 400 ==> (columns[k] != 0 <==> k < 81 && b[k] == 0)
    ensures ColumnsDone(b, columns, 0, 1)
  {
  }

  lemma ColumnsNextUnit(b: seq<int>, columns: seq<nat>, i: nat)
    requires ColumnsDone(b, columns, i, 10)
    ensures ColumnsDone(b, columns, i + 1, 1)
  {
    forall k | 0 <= k < 400
      ensures DueBefore(b, k, i, 10) <==> DueBefore(b, k, i + 1, 1)
    {
    }
  }

  lemma NotYet(b: seq<int>, columns: seq<nat>, i: nat, v: nat)
    requires ColumnsDone(b, columns, i, v) && i < 9 && 1 <= v < 10
    ensures columns[100 + i * 10 + v] == 0 && columns[200 + i * 10 + v] == 0 && columns[300 + i * 10 + v] == 0
  {
    NameParts(1, i, v);
    NameParts(2, i, v);
    NameParts(3, i, v);
  }

  /** Adding the missing ones of the three columns (i, v). */
  lemma ColumnsNext(b: seq<int>, c0: seq<nat>, c1: seq<nat>, i: nat, v: nat)
    requires ColumnsDone(b, c0, i, v) && i < 9 && 1 <= v < 10 && |c1| == 400
    requires forall k :: 0 <= k < 400 && k != 100 + i * 10 + v && k != 200 + i * 10 + v && k != 300 + i * 10 + v ==>
      c1[k] == c0[k]
    requires c1[100 + i * 10 + v] != 0 <==> !Occurs(b, 1, i, v)
    requires c1[200 + i * 10 + v] != 0 <==> !Occurs(b, 2, i, v)
    requires c1[300 + i * 10 + v] != 0 <==> !Occurs(b, 3, i, v)
    ensures ColumnsDone(b, c1, i, v + 1)
  {
    hide Occurs;
    NameParts(1, i, v);
    NameParts(2, i, v);
    NameParts(3, i, v);
    forall k | 0 <= k < 400
      ensures c1[k] != 0 <==> DueBefore(b, k, i, v + 1)
    {
      assert c0[k] != 0 <==> DueBefore(b, k, i, v);
    }
  }

  // ------------------------------------------------------------ which rows exist so far

  ghost predicate Earlier(cv: Placement, i: nat, v: int) {
    cv.0 < i || (cv.0 == i && cv.1 < v)
  }

  /** The rows are those of the candidates before (i, v), one each. */
  ghost predicate RowsDone(m: Layout, columns: seq<nat>, place: seq<Placement>, b: seq<int>, i: nat, v: int) {
    && |b| == 81 && RowsFor(m, columns, place, b)
    && (forall cv :: Candidate(b, cv) && Earlier(cv, i, v) ==> cv in place)
    && (forall cv :: cv in place ==> Earlier(cv, i, v))
  }

  lemma NoRowsYet(m: Layout, columns: seq<nat>, place: seq<Placement>, b: seq<int>)
    requires m.rows == [] && place == [] && |b| == 81
    ensures RowsDone(m, columns, place, b, 0, 1)
  {
  }

  lemma SkipCell(m: Layout, columns: seq<nat>, place: seq<Placement>, b: seq<int>, i: nat)
    requires RowsDone(m, columns, place, b, i, 1) && i < 81 && b[i] != 0
    ensures RowsDone(m, columns, place, b, i, 10)
  {
  }

  lemma RowsNextCell(m: Layout, columns: seq<nat>, place: seq<Placement>, b: seq<int>, i: nat)
    requires RowsDone(m, columns, place, b, i, 10)
    ensures RowsDone(m, columns, place, b, i + 1, 1)
  {
    hide RowsFor;
    forall cv | Candidate(b, cv) && Earlier(cv, i + 1, 1)
      ensures cv in place
    {
      assert Earlier(cv, i, 10);
    }
  }

  lemma RowsSkip(m: Layout, columns: seq<nat>, place: seq<Placement>, b: seq<int>, cv: Placement)
    requires RowsDone(m, columns, place, b, cv.0, cv.1) && !Candidate(b, cv)
    ensures RowsDone(m, columns, place, b, cv.0, cv.1 + 1)
  {
    hide RowsFor;
    forall x | Candidate(b, x) && Earlier(x, cv.0, cv.1 + 1)
      ensures x in place
    {
      assert x == cv || Earlier(x, cv.0, cv.1);
    }
  }

  lemma CandidateColumn(m: Layout, columns: seq<nat>, b: seq<int>, cv: Placement, k: nat)
    requires NamesOk(m, columns) && ColumnsDone(b, columns, 9, 1) && Candidate(b, cv) && k < 4
    ensures var name := ColumnName(k, cv);
      && 0 <= name < 400 && columns[name] in m.cols && columns[name] in m.members
      && columns[name] in m.nameOf && m.nameOf[columns[name]] == name
  {
    NameRange(cv, k);
    UnitRange(k, cv.0);
    hide UnitOf, Occurs;
    assert DueBefore(b, ColumnName(k, cv), 9, 1);
    assert m.ColumnShapeOk(columns[ColumnName(k, cv)]);
  }

  lemma NamesDiffer(cv: Placement, j: nat, k: nat)
    requires cv.0 < 81 && 1 <= cv.1 <= 9 && j < k < 4
    ensures ColumnName(j, cv) != ColumnName(k, cv)
  {
    NameRange(cv, j);
    NameRange(cv, k);
  }

  /** The four columns of a candidate exist and are different. */
  lemma CandidateColumns(m: Layout, columns: seq<nat>, b: seq<int>, cv: Placement, names: seq<int>)
    returns (cs: seq<nat>)
    requires NamesOk(m, columns) && ColumnsDone(b, columns, 9, 1) && Candidate(b, cv)
    requires |names| == 4 && forall k :: 0 <= k < 4 ==> names[k] == ColumnName(k, cv)
    ensures FourColumns(m, cs)
    ensures forall k :: 0 <= k < 4 ==> 0 <= names[k] < 400 && columns[names[k]] == cs[k]
  {
    CandidateColumn(m, columns, b, cv, 0);
    CandidateColumn(m, columns, b, cv, 1);
    CandidateColumn(m, columns, b, cv, 2);
    CandidateColumn(m, columns, b, cv, 3);
    hide ColumnName, Shape.Ok, ColumnsDone;
    cs := [columns[names[0]], columns[names[1]], columns[names[2]], columns[names[3]]];
    forall j, k | 0 <= j < k < 4
      ensures cs[j] != cs[k]
    {
      NamesDiffer(cv, j, k);
    }
  }

  /** Old rows still stand for their placements. */
  lemma OldRowFor(m: Layout, cs: seq<nat>, names: seq<int>, w: Layout, columns: seq<nat>, r: nat, cv: Placement)
    requires
      && FourColumns(m, cs) && |names| == 4 && w == WithRow(m, cs, names) && r < |m.rows| && RowFor(m, columns, r, cv)
    ensures r < |w.rows| && RowFor(w, columns, r, cv)
  {
    hide WithRow, Shape.Ok;
    WithRowBase(m, cs, names);
    WithRowNames(m, cs, names);
    forall p | 0 <= p < 4
      ensures NodeFor(w, columns, r, cv, p)
    {
      assert NodeFor(m, columns, r, cv, p);
      WithRowPlace(m, cs, names, r, p);
    }
  }

  /** The new row stands for the new placement. */
  lemma NewRowFor(m: Layout, cs: seq<nat>, names: seq<int>, w: Layout, columns: seq<nat>, cv: Placement)
    requires FourColumns(m, cs) && |names| == 4 && w == WithRow(m, cs, names)
    requires forall k :: 0 <= k < 4 ==>
      names[k] == ColumnName(k, cv) && 0 <= names[k] < |columns| && columns[names[k]] == cs[k]
    ensures |w.rows| == |m.rows| + 1 && RowFor(w, columns, |m.rows|, cv)
  {
    hide WithRow, Shape.Ok;
    WithRowBase(m, cs, names);
    WithRowNames(m, cs, names);
    var r := |m.rows|;
    forall p | 0 <= p < 4
      ensures NodeFor(w, columns, r, cv, p)
    {
      WithRowPlace(m, cs, names, r, p);
      assert w.rows[r][p] == m.n + p;
      assert names[p] == ColumnName(p, cv);
    }
  }

  lemma RowsNext(m: Layout, cs: seq<nat>, names: seq<int>, w: Layout, columns: seq<nat>, place: seq<Placement>,
      b: seq<int>, cv: Placement)
    requires RowsDone(m, columns, place, b, cv.0, cv.1) && Candidate(b, cv)
    requires FourColumns(m, cs) && |names| == 4 && w == WithRow(m, cs, names)
    requires forall k :: 0 <= k < 4 ==>
      names[k] == ColumnName(k, cv) && 0 <= names[k] < |columns| && columns[names[k]] == cs[k]
    ensures RowsDone(w, columns, place + [cv], b, cv.0, cv.1 + 1)
  {
    hide WithRow, Shape.Ok, RowFor, Candidate, ColumnName, FourColumns;
    NewRowFor(m, cs, names, w, columns, cv);
    var more := place + [cv];
    forall r | 0 <= r < |more|
      ensures r < |w.rows| && RowFor(w, columns, r, more[r]) && Candidate(b, more[r])
    {
      if r < |place| {
        assert RowFor(m, columns, r, place[r]);
        OldRowFor(m, cs, names, w, columns, r, place[r]);
      }
    }
    assert cv !in place;
    forall x | Candidate(b, x) && Earlier(x, cv.0, cv.1 + 1)
      ensures x in more
    {
      assert x == cv || Earlier(x, cv.0, cv.1);
    }
  }

  /** Once every cell has been tried, the matrix is that of the board. */
  lemma MatrixDone(m: Layout, columns: seq<nat>, place: seq<Placement>, b: seq<int>)
    requires NamesOk(m, columns) && ColumnsDone(b, columns, 9, 1) && RowsDone(m, columns, place, b, 81, 1)
    ensures MatrixFor(m, columns, place, b)
  {
    hide NamesOk, RowsFor;
    assert |columns| == 400;
    forall k | 0 <= k < 400
      ensures columns[k] != 0 <==> Needed(b, k)
    {
      assert columns[k] != 0 <==> DueBefore(b, k, 9, 1);
    }
    forall cv | Candidate(b, cv)
      ensures cv in place
    {
      assert Earlier(cv, 81, 1);
    }
  }

  lemma RootOnly(m: Layout, s: seq<Node>)
    requires m == Shape(1, [], [], map[], map[], map[], map[], map[]) && |s| > 0 && s[0] == Node(0, 0, 0, 0, 0, 0, 0)
    ensures Whole(m, s)
  {
    assert HLinked(s, [0], 0);
    assert [0] + m.cols == [0];
  }

  lemma RingInRow(m: Layout, x: nat, i: nat) returns (p: nat)
    requires x in m.rowOf && i <= |Others(m, x)|
    ensures m.NodeOk(x) && p < |m.rows[m.rowOf[x]]| && m.rows[m.rowOf[x]][p] == ([x] + Others(m, x))[i]
  {
    assert m.NodeOk(x);
    if i == 0 {
      p := m.posOf[x];
    } else {
      var y := Others(m, x)[i - 1];
      OthersOk(m, x, y);
      p := m.posOf[y];
    }
  }

  lemma RowInRing(m: Layout, x: nat, p: nat) returns (i: nat)
    requires x in m.rowOf && m.NodeOk(x) && p < |m.rows[m.rowOf[x]]|
    ensures i <= |Others(m, x)| && ([x] + Others(m, x))[i] == m.rows[m.rowOf[x]][p]
  {
    var r := m.rowOf[x];
    assert m.RowOk(r) && m.PlaceOk(r, p);
    var y := m.rows[r][p];
    if y == x {
      i := 0;
    } else {
      OthersAll(m, x, y);
      var k :| 0 <= k < |Others(m, x)| && Others(m, x)[k] == y;
      i := k + 1;
    }
  }

  /** The names met around a row are those of its placement's columns. */
  lemma RowIsNamed(m: Layout, columns: seq<nat>, x: nat, cv: Placement)
    requires x in m.rowOf && m.NodeOk(x) && RowFor(m, columns, m.rowOf[x], cv) && cv.0 < 81 && 1 <= cv.1 <= 9
    ensures RowNamed(m, x, cv)
  {
    var ring, r := [x] + Others(m, x), m.rowOf[x];
    forall i | 0 <= i < |ring|
      ensures NameFits(m, ring[i], cv)
    {
      var p := RingInRow(m, x, i);
      assert NodeFor(m, columns, r, cv, p);
      NameRange(cv, p);
    }
    var i0 := RowInRing(m, x, 0);
    assert NodeFor(m, columns, r, cv, 0);
    var i1 := RowInRing(m, x, 1);
    assert NodeFor(m, columns, r, cv, 1);
    NameRange(cv, 1);
  }

  lemma MatrixNamed(m: Layout, columns: seq<nat>, place: seq<Placement>, b: seq<int>)
    requires |b| == 81 && MatrixFor(m, columns, place, b)
    ensures |place| == |m.rows|
    ensures forall x :: x in m.rowOf ==>
      m.rowOf[x] < |place| && place[m.rowOf[x]].0 < 81 && RowNamed(m, x, place[m.rowOf[x]])
  {
    forall x | x in m.rowOf
      ensures m.rowOf[x] < |place| && place[m.rowOf[x]].0 < 81 && RowNamed(m, x, place[m.rowOf[x]])
    {
      assert m.NodeOk(x);
      var r := m.rowOf[x];
      assert RowFor(m, columns, r, place[r]) && Candidate(b, place[r]);
      RowIsNamed(m, columns, x, place[r]);
    }
  }

  // ------------------------------------------------------------ the whole solver

  /** The board a puzzle string denotes: each character minus '0'. */
  function Cells(puzzle: string): (b: seq<int>)
    ensures |b| == |puzzle|
  {
    seq(|puzzle|, i requires 0 <= i < |puzzle| => puzzle[i] as int - '0' as int)
  }

  /** A solution, as text, has digits everywhere and keeps the given ones. */
  lemma TextFilled(puzzle: string, result: string)
    requires |puzzle| == |result| == 81 && Board(Cells(puzzle)) && Solution(Cells(puzzle), Cells(result))
    ensures forall i :: 0 <= i < 81 ==>
      '1' <= result[i] <= '9' && '0' <= puzzle[i] <= '9' && (puzzle[i] == '0' || result[i] == puzzle[i])
  {
    forall i | 0 <= i < 81
      ensures '1' <= result[i] <= '9' && '0' <= puzzle[i] <= '9' && (puzzle[i] == '0' || result[i] == puzzle[i])
    {
      var c, d := Cells(puzzle)[i], Cells(result)[i];
      assert 0 <= c <= 9 && 1 <= d <= 9 && (c != 0 ==> d == c);
    }
  }

  const NO_SOLUTION := "NoSolution"

  /** solveSudoku: a solution whenever the puzzle is well formed and has one, and
      "NoSolution" exactly when it is not or has none. */
  method SolveSudoku(puzzle: string) returns (result: string)
    requires |puzzle| == 81
    ensures if Board(Cells(puzzle)) && exists sol :: Solution(Cells(puzzle), sol)
      then |result| == 81 && Solution(Cells(puzzle), Cells(result))
      else result == NO_SOLUTION
    ensures result != NO_SOLUTION ==> |result| == 81 && forall i :: 0 <= i < 81 ==>
      '1' <= result[i] <= '9' && '0' <= puzzle[i] <= '9' && (puzzle[i] == '0' || result[i] == puzzle[i])
  {
    result := NO_SOLUTION;
    var board := new int[81](_ => 0);
    var valid := true;
    for i := 0 to 81
      invariant forall k :: 0 <= k < i ==> board[k] == Cells(puzzle)[k]
      invariant valid <==> forall k :: 0 <= k < i ==> 0 <= Cells(puzzle)[k] <= 9
    {
      board[i] := puzzle[i] as int - '0' as int;
      valid := valid && 0 <= board[i] <= 9;
    }
    assert board[..] == Cells(puzzle);
    if valid {
      var ok := SolveBoard(board, Cells(puzzle));
      if ok {
        result := seq(81,
            i requires 0 <= i < 81 && board.Length == 81
              && 0 <= board[i] <= 9 reads board => (board[i] + '0' as int) as char);
        assert Cells(result) == board[..];
        TextFilled(puzzle, result);
      }
    }
  }

  /** Runs the search on a well-formed board. */
  method SolveBoard(board: array<int>, ghost b: seq<int>) returns (ok: bool)
    requires board.Length == 81 && board[..] == b && Board(b)
    modifies board
    ensures ok ==> Solution(b, board[..])
    ensures !ok ==> board[..] == b && !exists sol :: Solution(b, sol)
  {
    hide Whole, MatrixFor, Solution, Shape.Ok, IsCover;
    var s := new SudokuSolver(board);
    WholeCanonical(s.m, s.nodes[..]);
    ghost var v: Arena := View(s.m, s.nodes[..], s.m.Cols());
    EmptyStack(s.m);
    ok := s.Solve(v);
    if ok {
      CoverIsSolution(s.m, s.columns[..], s.place, b, s.stack);
    } else {
      forall sol | Solution(b, sol)
        ensures false
      {
        SolutionIsCover(s.m, s.columns[..], s.place, b, sol);
      }
    }
  }

  lemma EmptyStack(m: Layout)
    ensures StackOk(m, [], m.Cols())
  {
  }
}
