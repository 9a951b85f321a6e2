/** The knight's-tour grid: its size, the blocked margin around the playable
    interior, and the eight knight moves in the order the search tries them.
    Cells are addressed as (row, column). */
module Board {

  /** Side of the square grid, margin included. */
  const Base: int := 12

  /** Number of playable cells: the grid without a 2-cell margin on each side. */
  const Total: int := (Base - 4) * (Base - 4)

  /** Sentinel held by every margin cell. */
  const Blocked: int := -1

  /** Value of a playable cell the knight has not landed on. */
  const Unvisited: int := 0

  /** A knight move: `x` is added to the column, `y` to the row. */
  datatype Move = Move(x: int, y: int)

  /** The eight knight moves, in the order the search enumerates them. */
  const Moves: seq<Move> := [
    Move(1, -2), Move(2, -1), Move(2, 1), Move(1, 2),
    Move(-1, 2), Move(-2, 1), Move(-2, -1), Move(-1, -2)
  ]

  /** A cell found by the neighbour enumeration, with its onward degree. */
  datatype Neighbor = Neighbor(row: int, column: int, degree: int)

  predicate InGrid(r: int, c: int) {
    0 <= r < Base && 0 <= c < Base
  }

  /** The margin: rows and columns within 2 of either edge. */
  predicate IsBorder(r: int, c: int) {
    r < 2 || r > Base - 3 || c < 2 || c > Base - 3
  }

  predicate Interior(r: int, c: int) {
    2 <= r <= Base - 3 && 2 <= c <= Base - 3
  }

  function Abs(n: int): nat {
    if n < 0 then -n else n
  }

  /** (r1, c1) is one knight move away from (r0, c0). */
  predicate KnightStep(r0: int, c0: int, r1: int, c1: int) {
    || (Abs(r1 - r0) == 1 && Abs(c1 - c0) == 2)
    || (Abs(r1 - r0) == 2 && Abs(c1 - c0) == 1)
  }

  /** The cell reached from (r, c) by move i. Every move shifts each coordinate
      by 1 or 2, so from an interior cell it never leaves the grid: the margin
      is what makes the Java program's unchecked array accesses safe. */
  function Target(r: int, c: int, i: int): (t: (int, int))
    requires 0 <= i < |Moves|
    ensures Interior(r, c) ==> InGrid(t.0, t.1)
  {
    (r + Moves[i].y, c + Moves[i].x)
  }

  /** Every move is a knight step. */
  lemma TargetIsKnightStep(r: int, c: int, i: int)
    requires 0 <= i < |Moves|
    ensures KnightStep(r, c, Target(r, c, i).0, Target(r, c, i).1)
  {
  }

  /** The move table is complete: every knight displacement is one of the eight moves,
      and each move is a knight displacement. */
  lemma KnightStepIsMove(r0: int, c0: int, r1: int, c1: int)
    ensures KnightStep(r0, c0, r1, c1) <==> exists i :: 0 <= i < |Moves| && Target(r0, c0, i) == (r1, c1)
  {
    if KnightStep(r0, c0, r1, c1) {
      var dr, dc := r1 - r0, c1 - c0;
      var i :=
        if dc == 1 && dr == -2 then 0
        else if dc == 2 && dr == -1 then 1
        else if dc == 2 && dr == 1 then 2
        else if dc == 1 && dr == 2 then 3
        else if dc == -1 && dr == 2 then 4
        else if dc == -2 && dr == 1 then 5
        else if dc == -2 && dr == -1 then 6
        else 7;
      assert Target(r0, c0, i) == (r1, c1);
    }
  }

  /** `path` continues a knight's walk that stands on (r, c): each cell is one
      knight move from the one before it. */
  predicate KnightPathFrom(r: int, c: int, path: seq<(int, int)>) {
    && (|path| > 0 ==> KnightStep(r, c, path[0].0, path[0].1))
    && forall k :: 0 <= k < |path| - 1 ==> KnightStep(path[k].0, path[k].1, path[k + 1].0, path[k + 1].1)
  }

  predicate Distinct(s: seq<(int, int)>) {
    forall i, j :: 0 <= i < j < |s| ==> s[i] != s[j]
  }

  /** A complete tour: Total distinct interior cells, consecutive ones a knight move apart. */
  predicate IsTour(p: seq<(int, int)>) {
    && |p| == Total
    && Distinct(p)
    && (forall k :: 0 <= k < |p| ==> Interior(p[k].0, p[k].1))
    && KnightPathFrom(p[0].0, p[0].1, p[1..])
  }

  /** Cells (r, c) with column in [2, 2 + n). */
  ghost function RowSpan(r: int, n: nat): set<(int, int)> {
    set c | 2 <= c < 2 + n :: (r, c)
  }

  /** Interior columns of the rows in [2, 2 + m). */
  ghost function Block(m: nat): set<(int, int)> {
    set r, c | 2 <= r < 2 + m && 2 <= c < Base - 2 :: (r, c)
  }

  ghost function InteriorCells(): set<(int, int)> {
    Block(Base - 4)
  }

  lemma {:induction false} RowSpanSize(r: int, n: nat)
    ensures |RowSpan(r, n)| == n
  {
    if n == 0 {
      assert RowSpan(r, 0) == {};
    } else {
      RowSpanSize(r, n - 1);
      assert RowSpan(r, n) == RowSpan(r, n - 1) + {(r, 1 + n)};
    }
  }

  lemma {:induction false} BlockSize(m: nat)
    ensures |Block(m)| == m * (Base - 4)
  {
    if m == 0 {
      assert Block(0) == {};
    } else {
      BlockSize(m - 1);
      RowSpanSize(1 + m, Base - 4);
      assert Block(m) == Block(m - 1) + RowSpan(1 + m, Base - 4);
      assert Block(m - 1) * RowSpan(1 + m, Base - 4) == {};
    }
  }

  lemma {:induction false} DistinctCard(s: seq<(int, int)>)
    requires Distinct(s)
    ensures |set x | x in s| == |s|
  {
    if s != [] {
      DistinctCard(s[1..]);
      assert (set x | x in s) == (set x | x in s[1..]) + {s[0]};
      assert s[0] !in s[1..];
    }
  }

  /** A tour visits every interior cell: Total distinct cells inside an
      interior of Total cells leave none out. */
  lemma TourCoversInterior(p: seq<(int, int)>)
    requires IsTour(p)
    ensures forall r, c :: Interior(r, c) ==> (r, c) in p
  {
    var visited := set x | x in p;
    DistinctCard(p);
    BlockSize(Base - 4);
    assert visited <= InteriorCells();
    assert visited + InteriorCells() == InteriorCells();
    assert visited * InteriorCells() == visited;
    assert |InteriorCells() - visited| == 0;
    forall r, c | Interior(r, c)
      ensures (r, c) in p
    {
      assert (r, c) in InteriorCells();
    }
  }
}
