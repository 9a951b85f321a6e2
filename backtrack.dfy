/** The backtracking search as a reference definition on board values: what `solve`
    returns and which walk it numbers, given the board it starts from. A trial that
    fails leaves the board as it found it, so every trial of one loop starts from
    the same board. */
module Backtrack {
  import opened Board
  import opened Rules
  import opened DegreeOrder

  datatype Option<T> = None | Some(value: T)

  /** The search from (row, column), the cell numbered count - 1: the walk it numbers
      count, count + 1, ..., Total, or None when it gives up. Past the last move the
      walk is empty; a cell with no candidate fails unless only the last move was
      left; otherwise the candidates are tried in Warnsdorff order. */
  ghost function Search(b: Grid, row: int, column: int, count: int): Option<seq<(int, int)>>
    requires ValidBoard(b) && Interior(row, column) && 1 <= count
    decreases Total - count, 2, 0
  {
    if count > Total then Some([])
    else
      var nbs := Candidates(b, row, column);
      if |nbs| == 0 && count != Total then None
      else
        SortedCandidates(b, row, column);
        TryAll(b, row, column, count, StableSort(nbs))
  }

  /** The loop over the candidates: the first trial in `order` that succeeds. */
  ghost function TryAll(b: Grid, row: int, column: int, count: int, order: seq<Neighbor>): Option<seq<(int, int)>>
    requires ValidBoard(b) && 1 <= count <= Total
    requires forall j :: 0 <= j < |order| ==> IsCandidate(b, row, column, order[j])
    decreases Total - count, 1, |order|
  {
    if order == [] then None
    else
      assert IsCandidate(b, row, column, order[0]);
      match Trial(b, order[0].row, order[0].column, count)
      case Some(p) => Some(p)
      case None => TryAll(b, row, column, count, order[1..])
  }

  /** One trial: number the unvisited cell (r, c) with count; unless that leaves an
      orphan while more than one move remains, search on from (r, c). */
  ghost function Trial(b: Grid, r: int, c: int, count: int): Option<seq<(int, int)>>
    requires ValidBoard(b) && Interior(r, c) && b[r][c] == Unvisited && 1 <= count <= Total
    decreases Total - count, 0, 0
  {
    var m := Mark(b, r, c, count);
    if count < Total - 1 && HasOrphanNeighbor(m, r, c) then None
    else
      match Search(m, r, c, count + 1)
      case Some(p) => Some([(r, c)] + p)
      case None => None
  }

  /** The candidates in Warnsdorff order are as many as the cell's degree, and each is
      an unvisited knight target listed with its degree. */
  lemma SortedCandidates(b: Grid, row: int, column: int)
    requires ValidBoard(b) && Interior(row, column)
    ensures |StableSort(Candidates(b, row, column))| == Degree(b, row, column)
    ensures forall j :: 0 <= j < |StableSort(Candidates(b, row, column))| ==>
              IsCandidate(b, row, column, StableSort(Candidates(b, row, column))[j])
  {
    var nbs := Candidates(b, row, column);
    CandidatesAreOpenTargets(b, row, column);
    StableSortSpec(nbs);
    var order := StableSort(nbs);
    assert |multiset(order)| == |multiset(nbs)|;
    forall j | 0 <= j < |order|
      ensures IsCandidate(b, row, column, order[j])
    {
      assert order[j] in nbs;
    }
  }

  /** A success of the loop is the first success in `order`: some candidate's trial
      returns it, and every candidate before that one failed. */
  lemma {:induction false} TryAllIsFirstSuccess(b: Grid, row: int, column: int, count: int, order: seq<Neighbor>)
    requires ValidBoard(b) && 1 <= count <= Total
    requires forall j :: 0 <= j < |order| ==> IsCandidate(b, row, column, order[j])
    ensures TryAll(b, row, column, count, order).Some? <==>
              exists j :: 0 <= j < |order| && Trial(b, order[j].row, order[j].column, count).Some?
    ensures TryAll(b, row, column, count, order).Some? ==>
              exists j :: 0 <= j < |order|
                && Trial(b, order[j].row, order[j].column, count) == TryAll(b, row, column, count, order)
                && forall i :: 0 <= i < j ==> Trial(b, order[i].row, order[i].column, count).None?
    decreases |order|
  {
    if order != [] {
      var rest := order[1..];
      TryAllIsFirstSuccess(b, row, column, count, rest);
      assert forall j :: 0 <= j < |rest| ==> rest[j] == order[j + 1];
      if Trial(b, order[0].row, order[0].column, count).None? {
        if TryAll(b, row, column, count, order).Some? {
          var j :| 0 <= j < |rest|
            && Trial(b, rest[j].row, rest[j].column, count) == TryAll(b, row, column, count, rest)
            && forall i :: 0 <= i < j ==> Trial(b, rest[i].row, rest[i].column, count).None?;
          assert forall i :: 0 <= i < j + 1 ==> Trial(b, order[i].row, order[i].column, count).None? by {
            forall i | 0 <= i < j + 1
              ensures Trial(b, order[i].row, order[i].column, count).None?
            {
              if i > 0 {
                assert order[i] == rest[i - 1];
              }
            }
          }
        }
        if exists j :: 0 <= j < |order| && Trial(b, order[j].row, order[j].column, count).Some? {
          var j :| 0 <= j < |order| && Trial(b, order[j].row, order[j].column, count).Some?;
          assert j > 0 && order[j] == rest[j - 1];
        }
      }
    }
  }

  /** The orphan lookahead prunes: while more than one move remains, a trial of a cell
      whose numbering leaves a neighbour with no way on fails without searching. */
  lemma TrialPrunesOrphans(b: Grid, r: int, c: int, count: int)
    requires ValidBoard(b) && Interior(r, c) && b[r][c] == Unvisited && 1 <= count <= Total
    requires count < Total - 1 && LeavesOrphan(b, r, c)
    ensures Trial(b, r, c, count) == None
  {
    MarkedOrphan(b, r, c, count);
  }

  /** `p` numbers count, count + 1, ..., Total along a knight's walk from (row, column)
      over distinct interior cells that are unvisited on `b`. */
  ghost predicate WalkFrom(b: Grid, row: int, column: int, count: int, p: seq<(int, int)>)
    requires ValidBoard(b)
  {
    && |p| == (if count > Total then 0 else Total - count + 1)
    && KnightPathFrom(row, column, p)
    && Distinct(p)
    && forall k :: 0 <= k < |p| ==> Interior(p[k].0, p[k].1) && b[p[k].0][p[k].1] == Unvisited
  }

  /** Every walk the search returns is a knight's walk over distinct unvisited cells,
      one cell for each remaining number. */
  lemma {:induction false} SearchSound(b: Grid, row: int, column: int, count: int)
    requires ValidBoard(b) && Interior(row, column) && 1 <= count
    requires Search(b, row, column, count).Some?
    ensures WalkFrom(b, row, column, count, Search(b, row, column, count).value)
    decreases Total - count, 2, 0
  {
    if count <= Total {
      SortedCandidates(b, row, column);
      TryAllSound(b, row, column, count, StableSort(Candidates(b, row, column)));
    }
  }

  lemma {:induction false} TryAllSound(b: Grid, row: int, column: int, count: int, order: seq<Neighbor>)
    requires ValidBoard(b) && 1 <= count <= Total
    requires forall j :: 0 <= j < |order| ==> IsCandidate(b, row, column, order[j])
    requires TryAll(b, row, column, count, order).Some?
    ensures WalkFrom(b, row, column, count, TryAll(b, row, column, count, order).value)
    decreases Total - count, 1, |order|
  {
    var nb := order[0];
    assert IsCandidate(b, row, column, nb);
    if Trial(b, nb.row, nb.column, count).Some? {
      TrialSound(b, nb.row, nb.column, count);
    } else {
      TryAllSound(b, row, column, count, order[1..]);
    }
  }

  lemma {:induction false} TrialSound(b: Grid, r: int, c: int, count: int)
    requires ValidBoard(b) && Interior(r, c) && b[r][c] == Unvisited && 1 <= count <= Total
    requires Trial(b, r, c, count).Some?
    ensures Trial(b, r, c, count).value[0] == (r, c)
    ensures WalkFrom(b, r, c, count + 1, Trial(b, r, c, count).value[1..])
    ensures Distinct(Trial(b, r, c, count).value)
    ensures |Trial(b, r, c, count).value| == Total - count + 1
    decreases Total - count, 0, 0
  {
    var m := Mark(b, r, c, count);
    SearchSound(m, r, c, count + 1);
    var rest := Search(m, r, c, count + 1).value;
    var p := Trial(b, r, c, count).value;
    assert p == [(r, c)] + rest && p[1..] == rest;
    forall k | 0 <= k < |rest|
      ensures rest[k] != (r, c) && b[rest[k].0][rest[k].1] == Unvisited
    {
      assert m[rest[k].0][rest[k].1] == Unvisited;
    }
    forall i, j | 0 <= i < j < |p|
      ensures p[i] != p[j]
    {
      if i > 0 {
        assert p[i] == rest[i - 1];
      }
      assert p[j] == rest[j - 1];
    }
  }

  /** A trial is decided by the orphan test and the search on the marked board; when
      the search succeeds its walk, headed by (r, c), is the trial's. */
  lemma TrialOutcome(b: Grid, r: int, c: int, count: int, found: bool, rest: seq<(int, int)>)
    requires ValidBoard(b) && Interior(r, c) && b[r][c] == Unvisited && 1 <= count <= Total
    requires found <==>
               !(count < Total - 1 && HasOrphanNeighbor(Mark(b, r, c, count), r, c))
               && Search(Mark(b, r, c, count), r, c, count + 1).Some?
    requires found ==> rest == Search(Mark(b, r, c, count), r, c, count + 1).value
    ensures found <==> Trial(b, r, c, count).Some?
    ensures found ==> Trial(b, r, c, count).value == [(r, c)] + rest
    ensures count < Total - 1 && LeavesOrphan(b, r, c) ==> !found
  {
    if count < Total - 1 && LeavesOrphan(b, r, c) {
      TrialPrunesOrphans(b, r, c, count);
    }
  }

  /** On the last move the search cannot fail while the cell has a candidate: the
      orphan lookahead is off and the next search is past the end. */
  lemma LastMoveSucceeds(b: Grid, row: int, column: int)
    requires ValidBoard(b) && Interior(row, column) && Degree(b, row, column) > 0
    ensures Search(b, row, column, Total).Some?
    ensures |Search(b, row, column, Total).value| == 1
  {
    SortedCandidates(b, row, column);
    var order := StableSort(Candidates(b, row, column));
    var m := Mark(b, order[0].row, order[0].column, Total);
    assert Search(m, order[0].row, order[0].column, Total + 1) == Some([]);
    assert [(order[0].row, order[0].column)] + [] == [(order[0].row, order[0].column)];
    assert Trial(b, order[0].row, order[0].column, Total) == Some([(order[0].row, order[0].column)]);
  }
}
