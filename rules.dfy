/** The rules the search applies, on a board taken as a value: which knight targets
    of a cell are unvisited, how many onward moves a cell has, the list of candidate
    cells with their onward degrees, and the orphan test. The solver's grid is read
    through these definitions. */
module Rules {
  import opened Board

  /** A board as a value: the cell in row r, column c is b[r][c]. */
  type Grid = seq<seq<int>>

  /** A Base × Base board whose margin holds Blocked and whose interior holds
      Unvisited or the number of the move that landed there. */
  predicate ValidBoard(b: Grid) {
    && |b| == Base
    && (forall r :: 0 <= r < Base ==> |b[r]| == Base)
    && forall r, c :: 0 <= r < Base && 0 <= c < Base ==>
         if IsBorder(r, c) then b[r][c] == Blocked else b[r][c] >= Unvisited
  }

  /** The board as the program starts it: Blocked on the margin, Unvisited inside. */
  function InitialBoard(): (b: Grid)
    ensures ValidBoard(b)
  {
    seq(Base, r => seq(Base, c => if IsBorder(r, c) then Blocked else Unvisited))
  }

  /** The margin makes the sentinel check a bounds check: a cell that reads
      Unvisited is an interior one, from which every move stays on the board. */
  lemma UnvisitedIsInterior(b: Grid, r: int, c: int)
    requires ValidBoard(b) && InGrid(r, c) && b[r][c] == Unvisited
    ensures Interior(r, c)
    ensures forall i :: 0 <= i < |Moves| ==> InGrid(Target(r, c, i).0, Target(r, c, i).1)
  {
  }

  /** `b` with the interior cell (r, c) set to `v`. */
  function Mark(b: Grid, r: int, c: int, v: int): (m: Grid)
    requires ValidBoard(b) && Interior(r, c) && v >= Unvisited
    ensures ValidBoard(m)
  {
    b[r := b[r][c := v]]
  }

  // ---- Counting the blocked cells ----

  ghost function BlockedInRow(b: Grid, r: int, n: int): int
    requires ValidBoard(b) && 0 <= r < Base && 0 <= n <= Base
  {
    if n == 0 then 0 else BlockedInRow(b, r, n - 1) + (if b[r][n - 1] == Blocked then 1 else 0)
  }

  ghost function BlockedInRows(b: Grid, m: int): int
    requires ValidBoard(b) && 0 <= m <= Base
  {
    if m == 0 then 0 else BlockedInRows(b, m - 1) + BlockedInRow(b, m - 1, Base)
  }

  lemma {:induction false} BlockedInRowCount(b: Grid, r: int, n: int)
    requires ValidBoard(b) && 0 <= r < Base && 0 <= n <= Base
    ensures BlockedInRow(b, r, n) ==
              if r < 2 || r > Base - 3 then n
              else if n <= 2 then n
              else if n <= Base - 2 then 2
              else n - (Base - 4)
  {
    if n > 0 {
      BlockedInRowCount(b, r, n - 1);
    }
  }

  lemma {:induction false} BlockedInRowsCount(b: Grid, m: int)
    requires ValidBoard(b) && 0 <= m <= Base
    ensures BlockedInRows(b, m) ==
              if m <= 2 then Base * m
              else if m <= Base - 2 then 2 * Base + 4 * (m - 2)
              else 2 * Base + 4 * (Base - 4) + Base * (m - (Base - 2))
  {
    if m > 0 {
      BlockedInRowsCount(b, m - 1);
      BlockedInRowCount(b, m - 1, Base);
    }
  }

  /** The blocked cells and the playable cells make up the whole board. */
  lemma BlockedPlusTotal(b: Grid)
    requires ValidBoard(b)
    ensures BlockedInRows(b, Base) + Total == Base * Base
  {
    BlockedInRowsCount(b, Base);
  }

  // ---- Degree: the unvisited knight targets of a cell ----

  /** The target of move i from (r, c) is unvisited. */
  predicate Open(b: Grid, r: int, c: int, i: int)
    requires ValidBoard(b) && Interior(r, c) && 0 <= i < |Moves|
  {
    var t := Target(r, c, i);
    b[t.0][t.1] == Unvisited
  }

  /** Number of the first k moves from (r, c) whose target is unvisited. */
  function DegreeUpTo(b: Grid, r: int, c: int, k: int): (d: int)
    requires ValidBoard(b) && Interior(r, c) && 0 <= k <= |Moves|
    ensures 0 <= d <= k
  {
    if k == 0 then 0 else DegreeUpTo(b, r, c, k - 1) + (if Open(b, r, c, k - 1) then 1 else 0)
  }

  /** The onward degree of (r, c). */
  function Degree(b: Grid, r: int, c: int): (d: int)
    requires ValidBoard(b) && Interior(r, c)
    ensures 0 <= d <= |Moves|
  {
    DegreeUpTo(b, r, c, |Moves|)
  }

  /** Adding one more index, present or not, to a set that does not hold it. */
  lemma AddOneIfOpen(below: set<int>, upto: set<int>, x: int, open: bool)
    requires x !in below
    requires forall i :: i in upto <==> i in below || (open && i == x)
    ensures |upto| == |below| + (if open then 1 else 0)
  {
    if open {
      assert forall i :: i in upto <==> i in below + {x};
      assert upto == below + {x};
    } else {
      assert forall i :: i in upto <==> i in below;
      assert upto == below;
    }
  }

  lemma {:induction false} DegreeUpToCountsOpen(b: Grid, r: int, c: int, k: int)
    requires ValidBoard(b) && Interior(r, c) && 0 <= k <= |Moves|
    ensures DegreeUpTo(b, r, c, k) == |set i | 0 <= i < k && Open(b, r, c, i)|
  {
    if k > 0 {
      DegreeUpToCountsOpen(b, r, c, k - 1);
      var below := set i | 0 <= i < k - 1 && Open(b, r, c, i);
      var upto := set i | 0 <= i < k && Open(b, r, c, i);
      var open := Open(b, r, c, k - 1);
      assert forall i :: i in upto <==> i in below || (open && i == k - 1);
      AddOneIfOpen(below, upto, k - 1, open);
    }
  }

  /** The degree is exactly the number of moves whose target is unvisited. */
  lemma DegreeCountsOpenMoves(b: Grid, r: int, c: int)
    requires ValidBoard(b) && Interior(r, c)
    ensures Degree(b, r, c) == |set i | 0 <= i < |Moves| && Open(b, r, c, i)|
  {
    DegreeUpToCountsOpen(b, r, c, |Moves|);
  }

  // ---- Candidates: the unvisited knight targets, with their degrees ----

  /** The indices below k of the moves from (r, c) whose target is unvisited, in move order. */
  function OpenMovesUpTo(b: Grid, r: int, c: int, k: int): seq<int>
    requires ValidBoard(b) && Interior(r, c) && 0 <= k <= |Moves|
  {
    if k == 0 then []
    else OpenMovesUpTo(b, r, c, k - 1) + (if Open(b, r, c, k - 1) then [k - 1] else [])
  }

  function OpenMoves(b: Grid, r: int, c: int): seq<int>
    requires ValidBoard(b) && Interior(r, c)
  {
    OpenMovesUpTo(b, r, c, |Moves|)
  }

  lemma {:induction false} OpenMovesAreOpen(b: Grid, r: int, c: int, k: int)
    requires ValidBoard(b) && Interior(r, c) && 0 <= k <= |Moves|
    ensures forall j :: 0 <= j < |OpenMovesUpTo(b, r, c, k)| ==>
              0 <= OpenMovesUpTo(b, r, c, k)[j] < k && Open(b, r, c, OpenMovesUpTo(b, r, c, k)[j])
  {
    if k > 0 {
      OpenMovesAreOpen(b, r, c, k - 1);
    }
  }

  lemma {:induction false} OpenMovesAscending(b: Grid, r: int, c: int, k: int)
    requires ValidBoard(b) && Interior(r, c) && 0 <= k <= |Moves|
    ensures forall j1, j2 :: 0 <= j1 < j2 < |OpenMovesUpTo(b, r, c, k)| ==>
              OpenMovesUpTo(b, r, c, k)[j1] < OpenMovesUpTo(b, r, c, k)[j2]
  {
    if k > 0 {
      OpenMovesAscending(b, r, c, k - 1);
      OpenMovesAreOpen(b, r, c, k - 1);
    }
  }

  lemma {:induction false} OpenMovesComplete(b: Grid, r: int, c: int, k: int)
    requires ValidBoard(b) && Interior(r, c) && 0 <= k <= |Moves|
    ensures forall i :: 0 <= i < k && Open(b, r, c, i) ==> i in OpenMovesUpTo(b, r, c, k)
  {
    if k > 0 {
      OpenMovesComplete(b, r, c, k - 1);
    }
  }

  lemma {:induction false} OpenMovesCount(b: Grid, r: int, c: int, k: int)
    requires ValidBoard(b) && Interior(r, c) && 0 <= k <= |Moves|
    ensures |OpenMovesUpTo(b, r, c, k)| == DegreeUpTo(b, r, c, k)
  {
    if k > 0 {
      OpenMovesCount(b, r, c, k - 1);
    }
  }

  /** OpenMovesUpTo lists, in ascending order and once each, exactly the open moves
      below k, and there are as many of them as DegreeUpTo counts. */
  lemma OpenMovesUpToSpec(b: Grid, r: int, c: int, k: int)
    requires ValidBoard(b) && Interior(r, c) && 0 <= k <= |Moves|
    ensures forall j :: 0 <= j < |OpenMovesUpTo(b, r, c, k)| ==>
              0 <= OpenMovesUpTo(b, r, c, k)[j] < k && Open(b, r, c, OpenMovesUpTo(b, r, c, k)[j])
    ensures forall j1, j2 :: 0 <= j1 < j2 < |OpenMovesUpTo(b, r, c, k)| ==>
              OpenMovesUpTo(b, r, c, k)[j1] < OpenMovesUpTo(b, r, c, k)[j2]
    ensures forall i :: 0 <= i < k && Open(b, r, c, i) ==> i in OpenMovesUpTo(b, r, c, k)
    ensures |OpenMovesUpTo(b, r, c, k)| == DegreeUpTo(b, r, c, k)
  {
    OpenMovesAreOpen(b, r, c, k);
    OpenMovesAscending(b, r, c, k);
    OpenMovesComplete(b, r, c, k);
    OpenMovesCount(b, r, c, k);
  }

  /** The unvisited cell reached by move i, with its onward degree. */
  function Entry(b: Grid, r: int, c: int, i: int): (nb: Neighbor)
    requires ValidBoard(b) && Interior(r, c) && 0 <= i < |Moves| && Open(b, r, c, i)
    ensures Interior(nb.row, nb.column) && b[nb.row][nb.column] == Unvisited
    ensures KnightStep(r, c, nb.row, nb.column)
    ensures (nb.row, nb.column) == Target(r, c, i)
  {
    TargetIsKnightStep(r, c, i);
    var t := Target(r, c, i);
    Neighbor(t.0, t.1, Degree(b, t.0, t.1))
  }

  /** The candidates among the first k moves, in move order. */
  function CandidatesUpTo(b: Grid, r: int, c: int, k: int): seq<Neighbor>
    requires ValidBoard(b) && Interior(r, c) && 0 <= k <= |Moves|
  {
    if k == 0 then []
    else CandidatesUpTo(b, r, c, k - 1) + (if Open(b, r, c, k - 1) then [Entry(b, r, c, k - 1)] else [])
  }

  /** The j-th candidate is the entry of the j-th open move. */
  lemma {:induction false} CandidatesUpToSpec(b: Grid, r: int, c: int, k: int)
    requires ValidBoard(b) && Interior(r, c) && 0 <= k <= |Moves|
    ensures |CandidatesUpTo(b, r, c, k)| == |OpenMovesUpTo(b, r, c, k)|
    ensures forall j :: 0 <= j < |CandidatesUpTo(b, r, c, k)| ==>
              var i := OpenMovesUpTo(b, r, c, k)[j];
              0 <= i < |Moves| && Open(b, r, c, i) && CandidatesUpTo(b, r, c, k)[j] == Entry(b, r, c, i)
  {
    OpenMovesUpToSpec(b, r, c, k);
    if k > 0 {
      CandidatesUpToSpec(b, r, c, k - 1);
    }
  }

  /** (r, c) is an unvisited knight target of (row, column), listed with its onward degree. */
  predicate IsCandidate(b: Grid, row: int, column: int, nb: Neighbor)
    requires ValidBoard(b)
  {
    && Interior(nb.row, nb.column)
    && b[nb.row][nb.column] == Unvisited
    && KnightStep(row, column, nb.row, nb.column)
    && nb.degree == Degree(b, nb.row, nb.column)
  }

  /** The candidates of (r, c): all of its unvisited knight targets, in move order. */
  function Candidates(b: Grid, r: int, c: int): seq<Neighbor>
    requires ValidBoard(b) && Interior(r, c)
  {
    CandidatesUpTo(b, r, c, |Moves|)
  }

  /** Each candidate is an unvisited knight target listed with its degree, and there
      are as many candidates as the cell's degree. */
  lemma CandidatesAreOpenTargets(b: Grid, r: int, c: int)
    requires ValidBoard(b) && Interior(r, c)
    ensures |Candidates(b, r, c)| == Degree(b, r, c)
    ensures forall j :: 0 <= j < |Candidates(b, r, c)| ==> IsCandidate(b, r, c, Candidates(b, r, c)[j])
  {
    OpenMovesUpToSpec(b, r, c, |Moves|);
    CandidatesUpToSpec(b, r, c, |Moves|);
    var s, idx := Candidates(b, r, c), OpenMoves(b, r, c);
    forall j | 0 <= j < |s|
      ensures IsCandidate(b, r, c, s[j])
    {
      assert s[j] == Entry(b, r, c, idx[j]);
    }
  }

  // ---- Orphan lookahead ----

  /** Move i from (r, c) reaches an unvisited cell with no unvisited knight target. */
  predicate OrphanVia(b: Grid, r: int, c: int, i: int)
    requires ValidBoard(b) && Interior(r, c) && 0 <= i < |Moves|
  {
    Open(b, r, c, i) && Entry(b, r, c, i).degree == 0
  }

  /** Some unvisited knight target of (r, c) has no unvisited knight target of its own. */
  ghost predicate HasOrphanNeighbor(b: Grid, r: int, c: int)
    requires ValidBoard(b) && Interior(r, c)
  {
    exists i :: 0 <= i < |Moves| && OrphanVia(b, r, c, i)
  }

  /** An orphan neighbour is exactly a candidate listed with degree zero. */
  lemma OrphanIsCandidateOfDegreeZero(b: Grid, r: int, c: int)
    requires ValidBoard(b) && Interior(r, c)
    ensures HasOrphanNeighbor(b, r, c) <==>
              exists j :: 0 <= j < |Candidates(b, r, c)| && Candidates(b, r, c)[j].degree == 0
  {
    OpenMovesUpToSpec(b, r, c, |Moves|);
    CandidatesUpToSpec(b, r, c, |Moves|);
    var s, idx := Candidates(b, r, c), OpenMoves(b, r, c);
    if HasOrphanNeighbor(b, r, c) {
      var i :| 0 <= i < |Moves| && OrphanVia(b, r, c, i);
      var j :| 0 <= j < |idx| && idx[j] == i;
      assert s[j] == Entry(b, r, c, i);
    }
    if exists j :: 0 <= j < |s| && s[j].degree == 0 {
      var j :| 0 <= j < |s| && s[j].degree == 0;
      assert s[j] == Entry(b, r, c, idx[j]);
      assert OrphanVia(b, r, c, idx[j]);
    }
  }

  /** Move i from (p, q) reaches an unvisited cell other than (r, c). */
  predicate OpenAvoiding(b: Grid, p: int, q: int, i: int, r: int, c: int)
    requires ValidBoard(b) && Interior(p, q) && 0 <= i < |Moves|
  {
    Open(b, p, q, i) && Target(p, q, i) != (r, c)
  }

  /** The degree (p, q) would have among its first k moves once (r, c) is numbered. */
  function DegreeAvoidingUpTo(b: Grid, p: int, q: int, k: int, r: int, c: int): (d: int)
    requires ValidBoard(b) && Interior(p, q) && 0 <= k <= |Moves|
    ensures 0 <= d <= k
  {
    if k == 0 then 0
    else DegreeAvoidingUpTo(b, p, q, k - 1, r, c) + (if OpenAvoiding(b, p, q, k - 1, r, c) then 1 else 0)
  }

  /** Move i from (r, c) reaches a cell that numbering (r, c) would leave with no way on. */
  predicate LeavesOrphanVia(b: Grid, r: int, c: int, i: int)
    requires ValidBoard(b) && Interior(r, c) && 0 <= i < |Moves|
  {
    Open(b, r, c, i) && DegreeAvoidingUpTo(b, Target(r, c, i).0, Target(r, c, i).1, |Moves|, r, c) == 0
  }

  /** Numbering the cell (r, c) would leave one of its unvisited knight targets with
      no unvisited knight target of its own. */
  ghost predicate LeavesOrphan(b: Grid, r: int, c: int)
    requires ValidBoard(b) && Interior(r, c)
  {
    exists i :: 0 <= i < |Moves| && LeavesOrphanVia(b, r, c, i)
  }

  /** Once (r, c) is numbered, the degree of any cell is the degree it had avoiding (r, c). */
  lemma {:induction false} MarkedDegree(b: Grid, r: int, c: int, v: int, p: int, q: int, k: int)
    requires ValidBoard(b) && Interior(r, c) && v > Unvisited
    requires Interior(p, q) && 0 <= k <= |Moves|
    ensures DegreeUpTo(Mark(b, r, c, v), p, q, k) == DegreeAvoidingUpTo(b, p, q, k, r, c)
  {
    if k > 0 {
      MarkedDegree(b, r, c, v, p, q, k - 1);
      var m := Mark(b, r, c, v);
      var t := Target(p, q, k - 1);
      assert m[t.0][t.1] == if t == (r, c) then v else b[t.0][t.1];
      assert Open(m, p, q, k - 1) <==> OpenAvoiding(b, p, q, k - 1, r, c);
    }
  }

  /** The orphan test run on the board after numbering (r, c) with v judges the board
      before: it finds an orphan exactly when numbering (r, c) leaves one. */
  lemma MarkedOrphan(b: Grid, r: int, c: int, v: int)
    requires ValidBoard(b) && Interior(r, c) && b[r][c] == Unvisited && v > Unvisited
    ensures HasOrphanNeighbor(Mark(b, r, c, v), r, c) <==> LeavesOrphan(b, r, c)
  {
    var m := Mark(b, r, c, v);
    forall i | 0 <= i < |Moves|
      ensures OrphanVia(m, r, c, i) <==> LeavesOrphanVia(b, r, c, i)
    {
      TargetIsKnightStep(r, c, i);
      var t := Target(r, c, i);
      assert m[t.0][t.1] == b[t.0][t.1];
      if Open(b, r, c, i) {
        MarkedDegree(b, r, c, v, t.0, t.1, |Moves|);
      }
    }
  }
}
