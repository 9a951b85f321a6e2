/** The knight's-tour solver: a board with a blocked margin, the count of a
    cell's unvisited knight targets, the candidate list with onward degrees,
    the one-step orphan lookahead, and the backtracking search that numbers
    the cells in Warnsdorff order. Each method is specified by the rules and
    the reference search applied to the board it starts from. */
module KnightsTour {
  import opened Board
  import opened Rules
  import opened DegreeOrder
  import opened Backtrack

  class Solver {
    /** The board: margin cells hold Blocked; interior cells hold Unvisited or
        the number of the move that landed on them. */
    const grid: array2<int>
    /** The number of interior cells, which is the length of a complete tour. */
    const total: int

    /** The board as a value. */
    ghost function Snapshot(): (b: Grid)
      reads grid
      requires grid.Length0 == Base && grid.Length1 == Base
      ensures |b| == Base && forall i :: 0 <= i < Base ==> |b[i]| == Base
      ensures forall i, j :: 0 <= i < Base && 0 <= j < Base ==> b[i][j] == grid[i, j]
    {
      seq(Base, i requires 0 <= i < Base reads grid =>
        seq(Base, j requires 0 <= j < Base reads grid => grid[i, j]))
    }

    /** A board that differs from `b` only in holding `v` at (r, c) is `b` marked there. */
    lemma SnapshotIsMark(b: Grid, r: int, c: int, v: int)
      requires ValidBoard(b) && Interior(r, c) && v >= Unvisited
      requires grid.Length0 == Base && grid.Length1 == Base
      requires forall i, j :: 0 <= i < Base && 0 <= j < Base ==>
                 grid[i, j] == if (i, j) == (r, c) then v else b[i][j]
      ensures Snapshot() == Mark(b, r, c, v)
    {
      forall i | 0 <= i < Base
        ensures Snapshot()[i] == Mark(b, r, c, v)[i]
      {
        assert forall j :: 0 <= j < Base ==> Snapshot()[i][j] == Mark(b, r, c, v)[i][j];
      }
    }

    ghost predicate Valid()
      reads grid
    {
      && grid.Length0 == Base && grid.Length1 == Base
      && total == Total
      && ValidBoard(Snapshot())
    }

    /** The board as the program starts it: Blocked on the margin, Unvisited inside. */
    constructor ()
      ensures Valid() && fresh(grid)
      ensures Snapshot() == InitialBoard()
    {
      var g := new int[Base, Base]((r, c) => 0);
      for r := 0 to Base
        invariant forall i, j :: 0 <= i < Base && 0 <= j < Base ==>
                    g[i, j] == if i < r && IsBorder(i, j) then Blocked else Unvisited
      {
        for c := 0 to Base
          invariant forall i, j :: 0 <= i < Base && 0 <= j < Base ==>
                      g[i, j] == if (i < r || (i == r && j < c)) && IsBorder(i, j) then Blocked else Unvisited
        {
          if r < 2 || r > Base - 3 || c < 2 || c > Base - 3 {
            g[r, c] := Blocked;
          }
        }
      }
      grid := g;
      total := (Base - 4) * (Base - 4);
      new;
      forall i | 0 <= i < Base
        ensures Snapshot()[i] == InitialBoard()[i]
      {
        assert forall j :: 0 <= j < Base ==> Snapshot()[i][j] == InitialBoard()[i][j];
      }
    }

    /** `countNeighbors`: counts the moves from (row, column) that land on an unvisited cell. */
    method CountNeighbors(row: int, column: int) returns (num: int)
      requires Valid() && Interior(row, column)
      ensures num == Degree(Snapshot(), row, column)
    {
      num := 0;
      for k := 0 to |Moves|
        invariant num == DegreeUpTo(Snapshot(), row, column, k)
      {
        var m := Moves[k];
        if grid[row + m.y, column + m.x] == Unvisited {
          num := num + 1;
        }
      }
    }

    /** `neighbors`: the unvisited knight targets of (row, column), in move order, each with
        its onward degree; there are as many as the cell's degree, so at most eight. */
    method Neighbors(row: int, column: int) returns (nbs: seq<Neighbor>)
      requires Valid() && Interior(row, column)
      ensures nbs == Candidates(Snapshot(), row, column)
      ensures |nbs| == Degree(Snapshot(), row, column) <= |Moves|
      ensures forall j :: 0 <= j < |nbs| ==> IsCandidate(Snapshot(), row, column, nbs[j])
    {
      nbs := [];
      for k := 0 to |Moves|
        invariant nbs == CandidatesUpTo(Snapshot(), row, column, k)
      {
        var m := Moves[k];
        if grid[row + m.y, column + m.x] == Unvisited {
          assert Open(Snapshot(), row, column, k);
          var num := CountNeighbors(row + m.y, column + m.x);
          nbs := nbs + [Neighbor(row + m.y, column + m.x, num)];
        }
      }
      CandidatesAreOpenTargets(Snapshot(), row, column);
    }

    /** `orphanDetected`: while more than one move remains, reports whether the cell just
        numbered `count` at (row, column) has left a neighbour with no way on. */
    method OrphanDetected(count: int, row: int, column: int) returns (orphan: bool)
      requires Valid() && Interior(row, column)
      ensures orphan <==> count < total - 1 && HasOrphanNeighbor(Snapshot(), row, column)
    {
      OrphanIsCandidateOfDegreeZero(Snapshot(), row, column);
      if count < total - 1 {
        var nbs := Neighbors(row, column);
        for j := 0 to |nbs|
          invariant forall j' :: 0 <= j' < j ==> nbs[j'].degree != 0
        {
          var d := CountNeighbors(nbs[j].row, nbs[j].column);
          if d == 0 {
            return true;
          }
        }
      }
      return false;
    }

    // ---- Backtracking search ----

    /** `solve`: number the cells count, count + 1, ..., total along a knight's walk from
        (row, column). It succeeds exactly when the reference search from the board it
        started on does, and numbers that search's walk, `path` (cell k of it holds
        count + k); every cell off the walk is as it was. On failure the board is as it was. */
    method Solve(row: int, column: int, count: int) returns (solved: bool, ghost path: seq<(int, int)>)
      requires Valid() && Interior(row, column) && 1 <= count
      modifies grid
      decreases total - count, 3
      ensures Valid()
      ensures solved <==> Search(old(Snapshot()), row, column, count).Some?
      ensures solved ==> path == Search(old(Snapshot()), row, column, count).value
      ensures solved ==> |path| == if count > total then 0 else total - count + 1
      ensures solved ==> KnightPathFrom(row, column, path)
      ensures solved ==> forall k :: 0 <= k < |path| ==>
                InGrid(path[k].0, path[k].1)
                && old(grid[path[k].0, path[k].1]) == Unvisited
                && grid[path[k].0, path[k].1] == count + k
      ensures solved ==> forall r, c :: InGrid(r, c) && (r, c) !in path ==> grid[r, c] == old(grid[r, c])
      ensures !solved ==> unchanged(grid)
      ensures count == total && old(Degree(Snapshot(), row, column)) > 0 ==> solved
    {
      if count > total {
        return true, [];
      }
      ghost var b := Snapshot();
      var nbs := Neighbors(row, column);
      if |nbs| == 0 && count != total {
        return false, [];
      }
      var sorted := SortByDegree(nbs);
      SortedCandidates(b, row, column);
      solved, path := TryInOrder(row, column, count, sorted);
      if count == total && Degree(b, row, column) > 0 {
        LastMoveSucceeds(b, row, column);
      }
    }

    /** The loop of `solve`: a trial for each candidate in `order` until one succeeds; the
        outcome is the reference loop's over the same candidates. */
    method TryInOrder(row: int, column: int, count: int, order: seq<Neighbor>)
      returns (solved: bool, ghost path: seq<(int, int)>)
      requires Valid() && Interior(row, column) && 1 <= count <= total
      requires forall j :: 0 <= j < |order| ==> IsCandidate(Snapshot(), row, column, order[j])
      modifies grid
      decreases total - count, 2
      ensures Valid()
      ensures solved <==> TryAll(old(Snapshot()), row, column, count, order).Some?
      ensures solved ==> path == TryAll(old(Snapshot()), row, column, count, order).value
      ensures solved ==> |path| == total - count + 1 && KnightPathFrom(row, column, path)
      ensures solved ==> forall k :: 0 <= k < |path| ==>
                InGrid(path[k].0, path[k].1)
                && old(grid[path[k].0, path[k].1]) == Unvisited
                && grid[path[k].0, path[k].1] == count + k
      ensures solved ==> forall r, c :: InGrid(r, c) && (r, c) !in path ==> grid[r, c] == old(grid[r, c])
      ensures !solved ==> unchanged(grid)
    {
      ghost var b := Snapshot();
      for j := 0 to |order|
        invariant unchanged(grid) && Snapshot() == b
        invariant TryAll(b, row, column, count, order) == TryAll(b, row, column, count, order[j..])
      {
        var nb := order[j];
        assert order[j..][0] == nb && order[j..][1..] == order[j + 1..];
        var placed;
        placed, path := Place(row, column, nb.row, nb.column, count);
        if placed {
          return true, path;
        }
      }
      return false, [];
    }

    /** One trial of the search loop: number (r, c), a knight move from (row, column),
        with `count`; unless that leaves an orphan, search on from it; undo the
        numbering if the search fails. The outcome is the reference trial's. */
    method Place(row: int, column: int, r: int, c: int, count: int) returns (placed: bool, ghost path: seq<(int, int)>)
      requires Valid() && 1 <= count <= total
      requires Interior(r, c) && grid[r, c] == Unvisited && KnightStep(row, column, r, c)
      modifies grid
      decreases total - count, 1
      ensures Valid()
      ensures placed <==> Trial(old(Snapshot()), r, c, count).Some?
      ensures placed ==> path == Trial(old(Snapshot()), r, c, count).value
      ensures placed ==> |path| == total - count + 1 && path[0] == (r, c)
      ensures placed ==> KnightPathFrom(row, column, path)
      ensures placed ==> forall k :: 0 <= k < |path| ==>
                InGrid(path[k].0, path[k].1)
                && old(grid[path[k].0, path[k].1]) == Unvisited
                && grid[path[k].0, path[k].1] == count + k
      ensures placed ==> forall r', c' :: InGrid(r', c') && (r', c') !in path ==> grid[r', c'] == old(grid[r', c'])
      ensures !placed ==> unchanged(grid)
      ensures count < total - 1 && old(LeavesOrphan(Snapshot(), r, c)) ==> !placed
    {
      ghost var b := Snapshot();
      grid[r, c] := count;
      label Marked:
      SnapshotIsMark(b, r, c, count);
      var found, rest := Advance(r, c, count);
      TrialOutcome(b, r, c, count, found, rest);
      if found {
        assert (r, c) !in rest;
        path := [(r, c)] + rest;
        forall k | 0 <= k < |path|
          ensures InGrid(path[k].0, path[k].1)
          ensures old(grid[path[k].0, path[k].1]) == Unvisited
          ensures grid[path[k].0, path[k].1] == count + k
        {
          if k > 0 {
            assert path[k] == rest[k - 1];
            assert old@Marked(grid[path[k].0, path[k].1]) == Unvisited;
          }
        }
        return true, path;
      }
      grid[r, c] := Unvisited;
      return false, [];
    }

    /** The condition of a trial, with (r, c) just numbered `count`: no orphan is left
        (checked while more than one move remains) and the search from (r, c) succeeds. */
    method Advance(r: int, c: int, count: int) returns (found: bool, ghost rest: seq<(int, int)>)
      requires Valid() && Interior(r, c) && 1 <= count <= total && grid[r, c] == count
      modifies grid
      decreases total - count, 0
      ensures Valid()
      ensures found <==>
                !(count < total - 1 && old(HasOrphanNeighbor(Snapshot(), r, c)))
                && Search(old(Snapshot()), r, c, count + 1).Some?
      ensures found ==> rest == Search(old(Snapshot()), r, c, count + 1).value
      ensures found ==> |rest| == total - count && KnightPathFrom(r, c, rest)
      ensures found ==> forall k :: 0 <= k < |rest| ==>
                InGrid(rest[k].0, rest[k].1)
                && old(grid[rest[k].0, rest[k].1]) == Unvisited
                && grid[rest[k].0, rest[k].1] == count + 1 + k
      ensures found ==> forall a, b :: InGrid(a, b) && (a, b) !in rest ==> grid[a, b] == old(grid[a, b])
      ensures !found ==> unchanged(grid)
    {
      var orphan := OrphanDetected(count, r, c);
      if orphan {
        return false, [];
      }
      found, rest := Solve(r, c, count + 1);
    }
  }

  /** A board on which an interior walk from a cell numbered 1 carries the numbers
      2, 3, ..., Total in order holds a complete tour, and every interior cell is
      numbered. */
  lemma NumberedWalkIsTour(solver: Solver, tour: seq<(int, int)>)
    requires solver.Valid() && |tour| == Total && Interior(tour[0].0, tour[0].1)
    requires KnightPathFrom(tour[0].0, tour[0].1, tour[1..])
    requires forall k :: 0 <= k < |tour| ==>
               InGrid(tour[k].0, tour[k].1) && solver.grid[tour[k].0, tour[k].1] == k + 1
    ensures IsTour(tour)
    ensures forall r, c :: Interior(r, c) ==> 1 <= solver.grid[r, c] <= Total
  {
    forall k | 0 <= k < |tour|
      ensures Interior(tour[k].0, tour[k].1)
    {
    }
    TourCoversInterior(tour);
    forall r, c | Interior(r, c)
      ensures 1 <= solver.grid[r, c] <= Total
    {
      var k :| 0 <= k < |tour| && tour[k] == (r, c);
    }
  }

  /** The board of a solver whose snapshot is the initial board with (row, column)
      numbered 1, cell by cell. */
  lemma StartBoard(solver: Solver, row: int, column: int)
    requires solver.Valid() && Interior(row, column)
    requires solver.Snapshot() == Mark(InitialBoard(), row, column, 1)
    ensures forall r, c :: InGrid(r, c) ==>
              solver.grid[r, c] == if (r, c) == (row, column) then 1 else if IsBorder(r, c) then Blocked else Unvisited
  {
    forall r, c | InGrid(r, c)
      ensures solver.grid[r, c] == if (r, c) == (row, column) then 1 else if IsBorder(r, c) then Blocked else Unvisited
    {
      assert solver.grid[r, c] == solver.Snapshot()[r][c];
    }
  }

  /** The program's run from a given start cell (the Java program draws it at random from
      the interior): build the board, number the start cell 1, and search for the
      remaining moves. A success is a complete tour over every interior cell; a
      failure leaves only the start cell numbered. */
  method Tour(row: int, column: int) returns (found: bool, solver: Solver, ghost tour: seq<(int, int)>)
    requires Interior(row, column)
    ensures solver.Valid()
    ensures found <==> Search(Mark(InitialBoard(), row, column, 1), row, column, 2).Some?
    ensures found ==> tour == [(row, column)] + Search(Mark(InitialBoard(), row, column, 1), row, column, 2).value
    ensures found ==> IsTour(tour) && tour[0] == (row, column)
    ensures found ==> forall k :: 0 <= k < |tour| ==> solver.grid[tour[k].0, tour[k].1] == k + 1
    ensures found ==> forall r, c :: Interior(r, c) ==> 1 <= solver.grid[r, c] <= Total
    ensures !found ==> forall r, c :: InGrid(r, c) ==>
              solver.grid[r, c] == if (r, c) == (row, column) then 1 else if IsBorder(r, c) then Blocked else Unvisited
  {
    solver := new Solver();
    ghost var initial := solver.Snapshot();
    solver.grid[row, column] := 1;
    solver.SnapshotIsMark(initial, row, column, 1);
    ghost var path;
    found, path := solver.Solve(row, column, 2);
    tour := [(row, column)] + path;
    if found {
      assert (row, column) !in path;
      NumberedWalkIsTour(solver, tour);
    } else {
      StartBoard(solver, row, column);
    }
  }
}
