/** Sudoku boards as sequences of 81 cells, independent of how they are solved. */
module SudokuRules {

  /** Kinds of unit: 1 rows, 2 columns, 3 boxes; each has nine units of nine cells. */
  function UnitOf(kind: nat, i: nat): nat {
    if kind == 1 then i / 9 else if kind == 2 then i % 9 else i / 9 / 3 * 3 + i % 9 / 3
  }

  ghost predicate Board(b: seq<int>) {
    |b| == 81 && forall i :: 0 <= i < 81 ==> 0 <= b[i] <= 9
  }

  /** Digit v occurs in unit u of the given kind. */
  ghost predicate Occurs(b: seq<int>, kind: nat, u: nat, v: int)
    requires |b| == 81
  {
    exists i :: 0 <= i < 81 && b[i] == v && UnitOf(kind, i) == u
  }

  /** Every cell is filled and every unit holds every digit. */
  ghost predicate Complete(b: seq<int>) {
    && |b| == 81
    && (forall i :: 0 <= i < 81 ==> 1 <= b[i] <= 9)
    && (forall kind, u, v :: 1 <= kind <= 3 && 0 <= u < 9 && 1 <= v <= 9 ==> Occurs(b, kind, u, v))
  }

  /** sol fills the empty cells of b and changes no other. */
  ghost predicate Extends(b: seq<int>, sol: seq<int>) {
    |b| == |sol| == 81 && forall i :: 0 <= i < 81 && b[i] != 0 ==> sol[i] == b[i]
  }

  ghost predicate Solution(b: seq<int>, sol: seq<int>) {
    Complete(sol) && Extends(b, sol)
  }

  // A complete board repeats no digit in a unit: nine cells cannot hold nine digits and a
  // repetition.

  lemma UnitRange(kind: nat, i: nat)
    requires i < 81
    ensures UnitOf(kind, i) < 9
  {
  }

  /** The k-th cell of unit u. */
  function CellAt(kind: nat, u: nat, k: nat): nat {
    if kind == 1 then 9 * u + k else if kind == 2 then 9 * k + u else (u / 3 * 3 + k / 3) * 9 + u % 3 * 3 + k % 3
  }

  /** The position of cell i in its unit. */
  function PositionOf(kind: nat, i: nat): nat {
    if kind == 1 then i % 9 else if kind == 2 then i / 9 else i / 9 % 3 * 3 + i % 9 % 3
  }

  lemma CellOfPosition(kind: nat, i: nat)
    requires 1 <= kind <= 3 && i < 81
    ensures PositionOf(kind, i) < 9 && CellAt(kind, UnitOf(kind, i), PositionOf(kind, i)) == i
  {
    if kind == 3 {
      var r, c := i / 9, i % 9;
      var u, k := r / 3 * 3 + c / 3, r % 3 * 3 + c % 3;
      assert u / 3 == r / 3 && u % 3 == c / 3;
      assert k / 3 == r % 3 && k % 3 == c % 3;
    }
  }

  ghost function Values(b: seq<int>, kind: nat, u: nat, ks: set<nat>): set<int>
    requires |b| == 81
  {
    set k | k in ks && CellAt(kind, u, k) < 81 :: b[CellAt(kind, u, k)]
  }

  lemma {:induction false} ValuesBound(b: seq<int>, kind: nat, u: nat, ks: set<nat>)
    requires |b| == 81
    ensures |Values(b, kind, u, ks)| <= |ks|
  {
    if ks != {} {
      var k :| k in ks;
      ValuesBound(b, kind, u, ks - {k});
      var smaller := Values(b, kind, u, ks - {k});
      if CellAt(kind, u, k) < 81 {
        assert Values(b, kind, u, ks) == smaller + {b[CellAt(kind, u, k)]};
      } else {
        assert Values(b, kind, u, ks) == smaller;
      }
    }
  }

  const POSITIONS: set<nat> := {0, 1, 2, 3, 4, 5, 6, 7, 8}

  lemma EightLeft(p: nat)
    requires p < 9
    ensures p in POSITIONS && |POSITIONS - {p}| == 8
  {
    assert |POSITIONS| == 9;
  }

  lemma NineValues(vs: set<int>)
    requires forall v :: 1 <= v <= 9 ==> v in vs
    ensures |vs| >= 9
  {
    var digits: set<int> := {1, 2, 3, 4, 5, 6, 7, 8, 9};
    assert |digits| == 9;
    assert vs == digits + (vs - digits);
  }

  /** Every digit of the unit is found without looking at position p if another cell repeats it. */
  lemma FoundElsewhere(b: seq<int>, kind: nat, u: nat, p: nat, q: nat, v: int)
    requires Complete(b) && 1 <= kind <= 3 && u < 9 && p < 9 && q < 9 && p != q && 1 <= v <= 9
    requires CellAt(kind, u, p) < 81 && CellAt(kind, u, q) < 81
    requires b[CellAt(kind, u, p)] == b[CellAt(kind, u, q)]
    ensures v in Values(b, kind, u, POSITIONS - {p})
  {
    hide UnitOf, CellAt, PositionOf;
    assert Occurs(b, kind, u, v);
    var x :| 0 <= x < 81 && b[x] == v && UnitOf(kind, x) == u;
    CellOfPosition(kind, x);
    var k := PositionOf(kind, x);
    var k' := if k == p then q else k;
    assert k' in POSITIONS - {p};
    assert b[CellAt(kind, u, k')] == v;
  }

  /** Two cells of one unit of a complete board hold different digits. */
  lemma NoRepeat(b: seq<int>, kind: nat, i: nat, j: nat)
    requires Complete(b) && 1 <= kind <= 3 && i < 81 && j < 81 && i != j
    requires UnitOf(kind, i) == UnitOf(kind, j)
    ensures b[i] != b[j]
  {
    if b[i] == b[j] {
      var u, p, q := UnitOf(kind, i), PositionOf(kind, i), PositionOf(kind, j);
      UnitRange(kind, i);
      CellOfPosition(kind, i);
      CellOfPosition(kind, j);
      hide UnitOf, CellAt, PositionOf, Values;
      forall v | 1 <= v <= 9
        ensures v in Values(b, kind, u, POSITIONS - {p})
      {
        FoundElsewhere(b, kind, u, p, q, v);
      }
      NineValues(Values(b, kind, u, POSITIONS - {p}));
      ValuesBound(b, kind, u, POSITIONS - {p});
      EightLeft(p);
      assert false;
    }
  }
}
