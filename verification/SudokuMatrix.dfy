/** The exact-cover matrix of a sudoku board: one column per empty cell and per digit missing
    from a unit, one row per candidate.  Exact covers are solutions, both ways. */
module SudokuMatrix {
  import opened DancingLinks
  import opened SudokuRules

  /** A cell and the value written into it. */
  type Placement = (nat, int)

  /** The names of the four columns of a placement: its cell, and its digit in each unit. */
  function ColumnName(k: nat, cv: Placement): int {
    if k == 0 then cv.0 else 100 * k + 10 * UnitOf(k, cv.0) + cv.1
  }

  ghost predicate Candidate(b: seq<int>, cv: Placement)
    requires |b| == 81
  {
    && cv.0 < 81 && b[cv.0] == 0 && 1 <= cv.1 <= 9
    && forall kind :: 1 <= kind <= 3 ==> !Occurs(b, kind, UnitOf(kind, cv.0), cv.1)
  }

  /** The board needs a column with this name. */
  ghost predicate Needed(b: seq<int>, name: int)
    requires |b| == 81
  {
    || (0 <= name < 81 && b[name] == 0)
    || NeededUnit(b, name / 100, name / 10 % 10, name % 10, name)
  }

  ghost predicate NeededUnit(b: seq<int>, kind: int, u: int, v: int, name: int)
    requires |b| == 81
  {
    1 <= kind <= 3 && 0 <= u < 9 && 1 <= v <= 9 && name == 100 * kind + 10 * u + v && !Occurs(b, kind, u, v)
  }

  /** `columns` maps the name of every column to its header, and nothing else to a header. */
  ghost predicate NamesOk(m: Layout, columns: seq<nat>) {
    && |columns| == 400
    && (forall k :: 0 <= k < 400 && columns[k] != 0 ==>
          columns[k] in m.cols && columns[k] in m.nameOf && m.nameOf[columns[k]] == k)
    && (forall c :: c in m.cols ==> c in m.nameOf && 0 <= m.nameOf[c] < 400 && columns[m.nameOf[c]] == c)
  }

  /** The p-th node of row r lies in the p-th column of the placement. */
  ghost predicate NodeFor(m: Layout, columns: seq<nat>, r: nat, cv: Placement, p: nat)
    requires r < |m.rows| && p < |m.rows[r]|
  {
    var x := m.rows[r][p];
    && x in m.nameOf && x in m.colOf
    && 0 <= ColumnName(p, cv) < |columns| && m.nameOf[x] == ColumnName(p, cv)
    && m.colOf[x] == columns[ColumnName(p, cv)]
  }

  ghost predicate RowFor(m: Layout, columns: seq<nat>, r: nat, cv: Placement)
    requires r < |m.rows|
  {
    |m.rows[r]| == 4 && forall p :: 0 <= p < 4 ==> NodeFor(m, columns, r, cv, p)
  }

  ghost predicate RowsFor(m: Layout, columns: seq<nat>, place: seq<Placement>, b: seq<int>)
    requires |b| == 81
  {
    && |place| == |m.rows|
    && (forall r :: 0 <= r < |place| ==> RowFor(m, columns, r, place[r]) && Candidate(b, place[r]))
    && (forall r, q :: 0 <= r < q < |place| ==> place[r] != place[q])
  }

  /** The whole matrix of board b. */
  ghost predicate MatrixFor(m: Layout, columns: seq<nat>, place: seq<Placement>, b: seq<int>)
    requires |b| == 81
  {
    && NamesOk(m, columns)
    && (forall k :: 0 <= k < 400 ==> (columns[k] != 0 <==> Needed(b, k)))
    && RowsFor(m, columns, place, b)
    && (forall cv :: Candidate(b, cv) ==> cv in place)
  }

  lemma NameRange(cv: Placement, k: nat)
    requires cv.0 < 81 && 1 <= cv.1 <= 9 && k <= 3
    ensures 0 <= ColumnName(k, cv) < 400
    ensures k > 0 ==>
      ColumnName(k, cv) / 100 == k && ColumnName(k, cv) / 10 % 10 == UnitOf(k, cv.0) && ColumnName(k, cv) % 10 == cv.1
    ensures k > 0 ==> ColumnName(k, cv) >= 100
  {
    UnitRange(k, cv.0);
    hide UnitOf;
    if k > 0 {
      NameParts(k, UnitOf(k, cv.0), cv.1);
    }
  }

  lemma NameParts(k: nat, u: nat, v: int)
    requires 1 <= k <= 3 && u < 9 && 1 <= v <= 9
    ensures var n := 100 * k + 10 * u + v;
      100 <= n < 400 && n / 100 == k && n / 10 % 10 == u && n % 10 == v
  {
    var n := 100 * k + 10 * u + v;
    assert n / 10 == 10 * k + u;
  }

  /** A row uses exactly the columns named by its placement. */
  lemma RowUses(m: Layout, columns: seq<nat>, place: seq<Placement>, b: seq<int>, r: nat, c: nat)
    requires |b| == 81 && RowsFor(m, columns, place, b) && r < |m.rows|
    ensures c in RowCols(m, r)
      <==> exists k :: 0 <= k <= 3 && 0 <= ColumnName(k, place[r]) < |columns| && c == columns[ColumnName(k, place[r])]
  {
    assert m.RowOk(r) && RowFor(m, columns, r, place[r]);
    if c in RowCols(m, r) {
      var p :| 0 <= p < |m.rows[r]| && m.PlaceOk(r, p) && m.colOf[m.rows[r][p]] == c;
      assert NodeFor(m, columns, r, place[r], p);
    }
    if k :| 0 <= k <= 3 && 0 <= ColumnName(k, place[r]) < |columns| && c == columns[ColumnName(k, place[r])] {
      assert NodeFor(m, columns, r, place[r], k) && m.PlaceOk(r, k);
    }
  }

  /** If a row uses the column named `name`, its placement has that name. */
  lemma RowUsesName(m: Layout, columns: seq<nat>, place: seq<Placement>, b: seq<int>, r: nat, name: nat)
    returns (k: nat)
    requires |b| == 81 && NamesOk(m, columns) && RowsFor(m, columns, place, b) && r < |m.rows|
    requires name < 400 && columns[name] != 0 && columns[name] in RowCols(m, r)
    ensures k <= 3 && ColumnName(k, place[r]) == name
  {
    RowUses(m, columns, place, b, r, columns[name]);
    var j: nat :| 0 <= j <= 3 && 0 <= ColumnName(j, place[r]) < |columns| && columns[name] == columns[ColumnName(j,
        place[r])];
    assert Candidate(b, place[r]);
    NameRange(place[r], j);
    k := j;
  }

  lemma RowHasName(m: Layout, columns: seq<nat>, place: seq<Placement>, b: seq<int>, r: nat, k: nat)
    requires |b| == 81 && NamesOk(m, columns) && RowsFor(m, columns, place, b) && r < |m.rows| && k <= 3
    ensures 0 <= ColumnName(k, place[r]) < 400 && columns[ColumnName(k, place[r])] in RowCols(m, r)
  {
    assert Candidate(b, place[r]);
    NameRange(place[r], k);
    RowUses(m, columns, place, b, r, columns[ColumnName(k, place[r])]);
  }

  // ------------------------------------------------------------ covers give solutions

  /** The board after writing the cell and value of every stacked row. */
  ghost function Filled(m: Layout, place: seq<Placement>, stack: seq<nat>, board: seq<int>): (r: seq<int>)
    ensures |r| == |board|
  {
    if stack == [] then board else
      var b, x := Filled(m, place, stack[..|stack| - 1], board), stack[|stack| - 1];
      if x in m.rowOf && m.rowOf[x] < |place| && place[m.rowOf[x]].0 < |b|
      then b[place[m.rowOf[x]].0 := place[m.rowOf[x]].1] else b
  }

  ghost predicate Stacked(m: Layout, place: seq<Placement>, x: nat) {
    x in m.rowOf && m.rowOf[x] < |place| && place[m.rowOf[x]].0 < 81
  }

  /** A cell named by exactly one stacked row gets that row's value. */
  lemma {:induction false} FilledAt(m: Layout, place: seq<Placement>, stack: seq<nat>, b: seq<int>, i: nat, k: nat)
    requires |b| == 81 && i < 81 && k < |stack|
    requires forall j :: 0 <= j < |stack| ==> Stacked(m, place, stack[j])
    requires Stacked(m, place, stack[k]) && place[m.rowOf[stack[k]]].0 == i
    requires forall j :: 0 <= j < |stack| && j != k ==> Stacked(m, place, stack[j]) && place[m.rowOf[stack[j]]].0 != i
    ensures Filled(m, place, stack, b)[i] == place[m.rowOf[stack[k]]].1
  {
    assert Stacked(m, place, stack[k]);
    var front := stack[..|stack| - 1];
    assert forall j :: 0 <= j < |front| ==> front[j] == stack[j];
    if k < |front| {
      FilledAt(m, place, front, b, i, k);
    }
  }

  /** A cell named by no stacked row keeps its value. */
  lemma {:induction false} FilledNot(m: Layout, place: seq<Placement>, stack: seq<nat>, b: seq<int>, i: nat)
    requires |b| == 81 && i < 81
    requires forall j :: 0 <= j < |stack| ==> Stacked(m, place, stack[j]) && place[m.rowOf[stack[j]]].0 != i
    ensures Filled(m, place, stack, b)[i] == b[i]
  {
    if stack != [] {
      var front := stack[..|stack| - 1];
      assert forall j :: 0 <= j < |front| ==> front[j] == stack[j];
      FilledNot(m, place, front, b, i);
    }
  }

  lemma StackedAll(m: Layout, columns: seq<nat>, place: seq<Placement>, b: seq<int>, stack: seq<nat>)
    requires |b| == 81 && RowsFor(m, columns, place, b) && StackOk(m, stack, {})
    ensures forall j :: 0 <= j < |stack| ==> Stacked(m, place, stack[j]) && Candidate(b, place[m.rowOf[stack[j]]])
  {
    forall j | 0 <= j < |stack|
      ensures Stacked(m, place, stack[j]) && Candidate(b, place[m.rowOf[stack[j]]])
    {
      assert stack[j] in m.rowOf && m.NodeOk(stack[j]);
      assert Candidate(b, place[m.rowOf[stack[j]]]);
    }
  }

  /** Two stacked rows never share a cell: they would share that cell's column. */
  lemma CellsDiffer(m: Layout, columns: seq<nat>, place: seq<Placement>, b: seq<int>, stack: seq<nat>, j: nat, k: nat)
    requires |b| == 81 && NamesOk(m, columns) && RowsFor(m, columns, place, b) && StackOk(m, stack, {})
    requires j < |stack| && k < |stack| && j != k && Stacked(m, place, stack[j]) && Stacked(m, place, stack[k])
    ensures place[m.rowOf[stack[j]]].0 != place[m.rowOf[stack[k]]].0
  {
    assert m.NodeOk(stack[j]) && m.NodeOk(stack[k]);
    RowHasName(m, columns, place, b, m.rowOf[stack[j]], 0);
    RowHasName(m, columns, place, b, m.rowOf[stack[k]], 0);
    if j < k {
      assert RowCols(m, m.rowOf[stack[j]]) !! RowCols(m, m.rowOf[stack[k]]);
    } else {
      assert RowCols(m, m.rowOf[stack[k]]) !! RowCols(m, m.rowOf[stack[j]]);
    }
  }

  /** The value that ends up in the cell of the k-th stacked row. */
  lemma FilledCell(m: Layout, columns: seq<nat>, place: seq<Placement>, b: seq<int>, stack: seq<nat>, k: nat)
    requires |b| == 81 && NamesOk(m, columns) && RowsFor(m, columns, place, b) && StackOk(m, stack, {}) && k < |stack|
    ensures Stacked(m, place, stack[k]) && Candidate(b, place[m.rowOf[stack[k]]])
    ensures var cv := place[m.rowOf[stack[k]]]; Filled(m, place, stack, b)[cv.0] == cv.1
  {
    hide NamesOk, RowsFor, StackOk, Candidate, Shape.Ok;
    StackedAll(m, columns, place, b, stack);
    var i := place[m.rowOf[stack[k]]].0;
    forall j | 0 <= j < |stack| && j != k
      ensures Stacked(m, place, stack[j]) && place[m.rowOf[stack[j]]].0 != i
    {
      CellsDiffer(m, columns, place, b, stack, j, k);
    }
    FilledAt(m, place, stack, b, i, k);
  }

  /** Some stacked row uses the column with a needed name. */
  lemma NameCovered(m: Layout, columns: seq<nat>, place: seq<Placement>, b: seq<int>, stack: seq<nat>, name: nat)
    returns (j: nat, k: nat)
    requires |b| == 81 && MatrixFor(m, columns, place, b) && StackOk(m, stack, {}) && name < 400 && Needed(b, name)
    ensures j < |stack| && Stacked(m, place, stack[j]) && k <= 3 && ColumnName(k, place[m.rowOf[stack[j]]]) == name
  {
    StackedAll(m, columns, place, b, stack);
    assert columns[name] != 0 && columns[name] in m.cols;
    j :| 0 <= j < |stack| && stack[j] in m.rowOf && columns[name] in RowCols(m, m.rowOf[stack[j]]);
    assert m.NodeOk(stack[j]);
    k := RowUsesName(m, columns, place, b, m.rowOf[stack[j]], name);
  }

  /** Given cells are not touched, and empty cells get a digit. */
  lemma FilledGiven(m: Layout, columns: seq<nat>, place: seq<Placement>, b: seq<int>, stack: seq<nat>, i: nat)
    requires |b| == 81 && MatrixFor(m, columns, place, b) && StackOk(m, stack, {}) && i < 81
    ensures b[i] != 0 ==> Filled(m, place, stack, b)[i] == b[i]
    ensures b[i] == 0 ==> 1 <= Filled(m, place, stack, b)[i] <= 9
  {
    StackedAll(m, columns, place, b, stack);
    if b[i] != 0 {
      FilledNot(m, place, stack, b, i);
    } else {
      var j, k := NameCovered(m, columns, place, b, stack, i);
      FilledCell(m, columns, place, b, stack, j);
      NameRange(place[m.rowOf[stack[j]]], k);
    }
  }

  /** A digit missing from a unit of b is written into that unit. */
  lemma FilledUnit(m: Layout, columns: seq<nat>, place: seq<Placement>, b: seq<int>, stack: seq<nat>, kind: nat, u: nat,
      v: int)
    requires |b| == 81 && MatrixFor(m, columns, place, b) && StackOk(m, stack, {})
    requires 1 <= kind <= 3 && u < 9 && 1 <= v <= 9
    ensures Occurs(Filled(m, place, stack, b), kind, u, v)
  {
    hide UnitOf, Filled;
    if Occurs(b, kind, u, v) {
      var i :| 0 <= i < 81 && b[i] == v && UnitOf(kind, i) == u;
      FilledGiven(m, columns, place, b, stack, i);
    } else {
      var name := 100 * kind + 10 * u + v;
      NameParts(kind, u, v);
      assert NeededUnit(b, kind, u, v, name);
      var j, k := NameCovered(m, columns, place, b, stack, name);
      FilledCell(m, columns, place, b, stack, j);
      NameRange(place[m.rowOf[stack[j]]], k);
    }
  }

  /** An exact cover of the matrix, written into the board, is a solution of the board. */
  lemma CoverIsSolution(m: Layout, columns: seq<nat>, place: seq<Placement>, b: seq<int>, stack: seq<nat>)
    requires Board(b) && MatrixFor(m, columns, place, b) && StackOk(m, stack, {})
    ensures Solution(b, Filled(m, place, stack, b))
  {
    hide MatrixFor, StackOk, Filled, Occurs;
    var f := Filled(m, place, stack, b);
    forall i | 0 <= i < 81
      ensures 1 <= f[i] <= 9 && (b[i] != 0 ==> f[i] == b[i])
    {
      FilledGiven(m, columns, place, b, stack, i);
    }
    forall kind, u, v | 1 <= kind <= 3 && 0 <= u < 9 && 1 <= v <= 9
      ensures Occurs(f, kind, u, v)
    {
      FilledUnit(m, columns, place, b, stack, kind, u, v);
    }
  }

  // ------------------------------------------------------------ solutions give covers

  /** The rows whose placement a solution makes. */
  ghost function RowsOf(place: seq<Placement>, sol: seq<int>): set<nat>
    requires |sol| == 81
  {
    set r: nat | 0 <= r < |place| && place[r].0 < 81 && sol[place[r].0] == place[r].1
  }

  /** What a solution puts into an empty cell is a candidate of the board. */
  lemma SolutionCandidate(b: seq<int>, sol: seq<int>, i: nat)
    requires |b| == 81 && Solution(b, sol) && i < 81 && b[i] == 0
    ensures Candidate(b, (i, sol[i]))
  {
    forall kind | 1 <= kind <= 3
      ensures !Occurs(b, kind, UnitOf(kind, i), sol[i])
    {
      if Occurs(b, kind, UnitOf(kind, i), sol[i]) {
        var j :| 0 <= j < 81 && b[j] == sol[i] && UnitOf(kind, j) == UnitOf(kind, i);
        NoRepeat(sol, kind, i, j);
      }
    }
  }

  lemma SolutionRow(m: Layout, columns: seq<nat>, place: seq<Placement>, b: seq<int>, sol: seq<int>, i: nat)
    returns (r: nat)
    requires |b| == 81 && MatrixFor(m, columns, place, b) && Solution(b, sol) && i < 81 && b[i] == 0
    ensures r in RowsOf(place, sol) && r < |m.rows| && place[r] == (i, sol[i])
  {
    SolutionCandidate(b, sol, i);
    assert (i, sol[i]) in place;
    r :| 0 <= r < |place| && place[r] == (i, sol[i]);
  }

  /** Every column is used by a row of the solution. */
  lemma SolutionCovers(m: Layout, columns: seq<nat>, place: seq<Placement>, b: seq<int>, sol: seq<int>, c: nat)
    requires |b| == 81 && MatrixFor(m, columns, place, b) && Solution(b, sol) && c in m.cols
    ensures exists r :: r in RowsOf(place, sol) && r < |m.rows| && c in RowCols(m, r)
  {
    hide UnitOf;
    var name := m.nameOf[c];
    BelowZero(m, c);
    assert columns[name] == c && Needed(b, name);
    if 0 <= name < 81 && b[name] == 0 {
      var r := SolutionRow(m, columns, place, b, sol, name);
      RowHasName(m, columns, place, b, r, 0);
    } else {
      var kind, u, v := name / 100, name / 10 % 10, name % 10;
      assert Occurs(sol, kind, u, v);
      var i :| 0 <= i < 81 && sol[i] == v && UnitOf(kind, i) == u;
      assert b[i] == 0;
      var r := SolutionRow(m, columns, place, b, sol, i);
      RowHasName(m, columns, place, b, r, kind);
    }
  }

  lemma BelowZero(m: Layout, c: nat)
    requires c in m.cols
    ensures c != 0
  {
    assert m.ColumnShapeOk(c);
  }

  /** Two rows of the solution never share a column. */
  lemma SolutionDisjoint(m: Layout, columns: seq<nat>, place: seq<Placement>, b: seq<int>, sol: seq<int>, r: nat,
      q: nat, c: nat)
    requires |b| == 81 && MatrixFor(m, columns, place, b) && Solution(b, sol)
    requires
      && r in RowsOf(place, sol) && q in RowsOf(place, sol) && r < |m.rows| && q < |m.rows| && c in RowCols(m, r)
      && c in RowCols(m, q)
    ensures r == q
  {
    hide UnitOf;
    RowColumnIs(m, r, c);
    var name := m.nameOf[c];
    var k := RowUsesName(m, columns, place, b, r, name);
    var k' := RowUsesName(m, columns, place, b, q, name);
    assert Candidate(b, place[r]) && Candidate(b, place[q]);
    NameRange(place[r], k);
    NameRange(place[q], k');
    var i, j := place[r].0, place[q].0;
    if i != j {
      assert k == k' && 1 <= k <= 3;
      NoRepeat(sol, k, i, j);
      assert false;
    }
  }

  lemma RowColumnIs(m: Layout, r: nat, c: nat)
    requires r < |m.rows| && c in RowCols(m, r)
    ensures c in m.cols && c != 0
  {
    var x := NodeAt(m, r, c);
    BelowZero(m, c);
  }

  /** A solution of the board is an exact cover of the matrix. */
  lemma SolutionIsCover(m: Layout, columns: seq<nat>, place: seq<Placement>, b: seq<int>, sol: seq<int>)
    requires |b| == 81 && MatrixFor(m, columns, place, b) && Solution(b, sol)
    ensures IsCover(m, RowsOf(place, sol), m.Cols())
  {
    hide UnitOf, Complete, RowCols, Shape.Ok;
    var S := RowsOf(place, sol);
    forall r | r in S
      ensures r < |m.rows| && RowCols(m, r) <= m.Cols()
    {
      forall c | c in RowCols(m, r)
        ensures c in m.Cols()
      {
        RowColumnIs(m, r, c);
      }
    }
    forall c | c in m.Cols()
      ensures exists r :: r in S && r < |m.rows| && c in RowCols(m, r)
    {
      SolutionCovers(m, columns, place, b, sol, c);
    }
    forall r, q | r in S && q in S && r != q
      ensures r < |m.rows| && q < |m.rows| && RowCols(m, r) !! RowCols(m, q)
    {
      forall c | c in RowCols(m, r) && c in RowCols(m, q)
        ensures false
      {
        SolutionDisjoint(m, columns, place, b, sol, r, q, c);
      }
    }
  }
}
