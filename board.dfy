/** The candidate board and its read-only queries.

    The source keeps a (9, 3, 3, 9) array of ones and zeros: board[square][row][col]
    is the presence vector of one cell, slot d set while digit d (shown as d + 1)
    is still possible. Here the board is an array of 81 presence vectors in the
    same order (see Coordinates.Index), and `board[..]` is its value. */
module Board {
  import opened Coordinates

  /** One cell's presence vector. Its number of set slots is the cell's entropy:
      1 means solved, 2 or more unsolved, 0 an emptied cell. */
  type Cands = c: seq<bool> | |c| == 9 witness [true, true, true, true, true, true, true, true, true]

  const Full: Cands := [true, true, true, true, true, true, true, true, true]

  /** The presence vector holding the one digit v. */
  function Single(v: int): Cands
    requires 0 <= v < 9
  {
    seq(9, d => d == v)
  }

  /** np.count_nonzero of a presence vector. */
  function CountNonzero(c: seq<bool>): (n: nat)
    ensures n <= |c|
  {
    if |c| == 0 then 0
    else CountNonzero(c[..|c| - 1]) + (if c[|c| - 1] then 1 else 0)
  }

  /** No slot counted exactly when no slot is set; all counted exactly when all are. */
  lemma {:induction false} CountExtremes(c: seq<bool>)
    ensures CountNonzero(c) == 0 <==> forall d :: 0 <= d < |c| ==> !c[d]
    ensures CountNonzero(c) == |c| <==> forall d :: 0 <= d < |c| ==> c[d]
  {
    if |c| > 0 {
      var n := |c| - 1;
      CountExtremes(c[..n]);
      assert forall d :: 0 <= d < n ==> c[..n][d] == c[d];
    }
  }

  /** Every slot set in `a` is set in `c`. */
  predicate Within(a: seq<bool>, c: seq<bool>) {
    |a| == |c| && forall d :: 0 <= d < |a| ==> a[d] ==> c[d]
  }

  /** Setting one slot changes the count by the difference it makes. */
  lemma {:induction false} CountUpdate(c: seq<bool>, d: int, x: bool)
    requires 0 <= d < |c|
    ensures CountNonzero(c[d := x]) ==
              CountNonzero(c) - (if c[d] then 1 else 0) + (if x then 1 else 0)
  {
    var n := |c| - 1;
    if d == n {
      assert c[d := x][..n] == c[..n];
    } else {
      assert c[d := x][..n] == c[..n][d := x];
      CountUpdate(c[..n], d, x);
    }
  }

  /** Fewer set slots never count more; a slot lost counts strictly fewer. */
  lemma {:induction false} CountSubset(a: seq<bool>, c: seq<bool>)
    requires Within(a, c)
    ensures CountNonzero(a) <= CountNonzero(c)
    ensures (exists d :: 0 <= d < |a| && c[d] && !a[d]) ==> CountNonzero(a) < CountNonzero(c)
  {
    if |a| > 0 {
      var n := |a| - 1;
      CountSubset(a[..n], c[..n]);
      if exists d :: 0 <= d < n && c[d] && !a[d] {
        var d :| 0 <= d < n && c[d] && !a[d];
        assert c[..n][d] && !a[..n][d];
      }
    }
  }

  /** A non-empty part of a solved cell is that cell. */
  lemma SubsetOfSolved(a: Cands, c: Cands)
    requires Within(a, c) && CountNonzero(c) == 1 && CountNonzero(a) >= 1
    ensures a == c
  {
    CountSubset(a, c);
    assert forall d :: 0 <= d < 9 ==> a[d] == c[d];
  }

  /** A solved cell is the presence vector of its one digit. */
  lemma SolvedIsSingle(c: Cands, v: int)
    requires 0 <= v < 9 && c[v] && CountNonzero(c) == 1
    ensures c == Single(v) && CountNonzero(Single(v)) == 1
  {
    var none: Cands := seq(9, d => false);
    assert Single(v) == none[v := true];
    CountUpdate(none, v, true);
    SubsetOfSolved(Single(v), c);
  }

  /** The first set slot at or after i. */
  function FirstFrom(c: seq<bool>, i: nat): (v: nat)
    requires i <= |c| && exists j :: i <= j < |c| && c[j]
    ensures i <= v < |c| && c[v]
    ensures forall j :: i <= j < v ==> !c[j]
    decreases |c| - i
  {
    if c[i] then i else FirstFrom(c, i + 1)
  }

  /** getValue: the first remaining candidate of a cell, which is its digit once
      the cell is solved. The source fails on an emptied cell. */
  function GetValue(board: seq<Cands>, space: Space): (v: int)
    requires |board| == 81 && ValidSpace(space)
    requires CountNonzero(board[Index(space)]) >= 1
    ensures 0 <= v < 9 && board[Index(space)][v]
    ensures forall d :: 0 <= d < v ==> !board[Index(space)][d]
  {
    CountExtremes(board[Index(space)]);
    FirstFrom(board[Index(space)], 0)
  }

  /** No cell has been emptied. */
  predicate AllNonEmpty(board: seq<Cands>) {
    forall k :: 0 <= k < |board| ==> CountNonzero(board[k]) >= 1
  }

  /** The number of cells with more than one candidate. */
  function Unsolved(board: seq<Cands>): (n: nat)
    ensures n <= |board|
  {
    if |board| == 0 then 0
    else Unsolved(board[..|board| - 1]) + (if CountNonzero(board[|board| - 1]) > 1 then 1 else 0)
  }

  lemma {:induction false} UnsolvedZero(board: seq<Cands>)
    ensures Unsolved(board) == 0 <==> forall k :: 0 <= k < |board| ==> CountNonzero(board[k]) <= 1
  {
    if |board| > 0 {
      var n := |board| - 1;
      UnsolvedZero(board[..n]);
      assert forall k :: 0 <= k < n ==> board[..n][k] == board[k];
    }
  }

  lemma {:induction false} UnsolvedAll(board: seq<Cands>)
    ensures Unsolved(board) == |board| <==> forall k :: 0 <= k < |board| ==> CountNonzero(board[k]) > 1
  {
    if |board| > 0 {
      var n := |board| - 1;
      UnsolvedAll(board[..n]);
      assert forall k :: 0 <= k < n ==> board[..n][k] == board[k];
    }
  }

  /** `after` arises from `before` by clearing candidates only, and no cell
      that still had a candidate loses its last one. */
  ghost predicate Narrows(before: seq<Cands>, after: seq<Cands>) {
    |after| == |before| &&
    forall k :: 0 <= k < |before| ==>
      Within(after[k], before[k]) &&
      (CountNonzero(before[k]) >= 1 ==> CountNonzero(after[k]) >= 1)
  }

  lemma NarrowsTrans(g0: seq<Cands>, g1: seq<Cands>, g2: seq<Cands>)
    requires Narrows(g0, g1) && Narrows(g1, g2)
    ensures Narrows(g0, g2)
  {
  }

  /** When no cell gains candidates, the unsolved count never rises, and it
      falls as soon as one cell goes from unsolved to solved. */
  lemma {:induction false} UnsolvedMonotone(before: seq<Cands>, after: seq<Cands>)
    requires |after| == |before|
    requires forall k :: 0 <= k < |before| ==> CountNonzero(after[k]) <= CountNonzero(before[k])
    ensures Unsolved(after) <= Unsolved(before)
    ensures (exists k :: 0 <= k < |before| && CountNonzero(before[k]) > 1 && CountNonzero(after[k]) <= 1)
              ==> Unsolved(after) < Unsolved(before)
  {
    if |before| > 0 {
      var n := |before| - 1;
      var b, a := before[..n], after[..n];
      assert forall k :: 0 <= k < n ==> b[k] == before[k] && a[k] == after[k];
      UnsolvedMonotone(b, a);
      if exists k :: 0 <= k < n && CountNonzero(before[k]) > 1 && CountNonzero(after[k]) <= 1 {
        var k :| 0 <= k < n && CountNonzero(before[k]) > 1 && CountNonzero(after[k]) <= 1;
        assert CountNonzero(b[k]) > 1 && CountNonzero(a[k]) <= 1;
      }
    }
  }

  /** Narrowing never unsolves a cell. */
  lemma NarrowsUnsolved(before: seq<Cands>, after: seq<Cands>)
    requires Narrows(before, after)
    ensures Unsolved(after) <= Unsolved(before)
    ensures (exists k :: 0 <= k < |before| && CountNonzero(before[k]) > 1 && CountNonzero(after[k]) <= 1)
              ==> Unsolved(after) < Unsolved(before)
  {
    forall k | 0 <= k < |before|
      ensures CountNonzero(after[k]) <= CountNonzero(before[k])
    {
      CountSubset(after[k], before[k]);
    }
    UnsolvedMonotone(before, after);
  }

  /** Narrowing leaves solved cells exactly as they were. */
  lemma NarrowsKeepsSolved(before: seq<Cands>, after: seq<Cands>, k: int)
    requires Narrows(before, after) && 0 <= k < |before| && CountNonzero(before[k]) == 1
    ensures after[k] == before[k]
  {
    SubsetOfSolved(after[k], before[k]);
  }

  /** initBoard: every cell holds all nine candidates. */
  method InitBoard() returns (board: array<Cands>)
    ensures fresh(board) && board.Length == 81
    ensures forall k :: 0 <= k < 81 ==> board[k] == Full
    ensures AllNonEmpty(board[..]) && Unsolved(board[..]) == 81
  {
    board := new Cands[81](_ => Full);
    CountExtremes(Full);
    UnsolvedAll(board[..]);
  }

  /** countUnsolved */
  method CountUnsolved(board: array<Cands>) returns (unsolvedSpaces: nat)
    requires board.Length == 81
    ensures unsolvedSpaces == Unsolved(board[..])
  {
    unsolvedSpaces := 0;
    for k := 0 to 81
      invariant unsolvedSpaces == Unsolved(board[..k])
    {
      assert board[..k + 1][..k] == board[..k];
      if CountNonzero(board[k]) > 1 {
        unsolvedSpaces := unsolvedSpaces + 1;
      }
    }
    assert board[..81] == board[..];
  }
}
