/** The flaw detector for a finished board. */
module Conflicts {
  import opened Coordinates
  import opened Board

  /** The cell at `space` shares its value with one of its peers. */
  ghost predicate InConflict(board: seq<Cands>, space: Space)
    requires |board| == 81 && ValidSpace(space) && AllNonEmpty(board)
  {
    exists t :: ValidSpace(t) && Peers(space, t) && GetValue(board, t) == GetValue(board, space)
  }

  /** A conflict always involves two cells: the peer that shares the value is
      in conflict too. */
  lemma ConflictIsMutual(board: seq<Cands>, space: Space) returns (t: Space)
    requires |board| == 81 && ValidSpace(space) && AllNonEmpty(board)
    requires InConflict(board, space)
    ensures ValidSpace(t) && t != space && InConflict(board, t)
  {
    t :| ValidSpace(t) && Peers(space, t) && GetValue(board, t) == GetValue(board, space);
    assert Peers(t, space);
  }

  /** A positive count has a set slot. */
  lemma SomeMarked(m: seq<bool>) returns (k: int)
    requires CountNonzero(m) != 0
    ensures 0 <= k < |m| && m[k]
  {
    CountExtremes(m);
    k :| 0 <= k < |m| && m[k];
  }

  /** Two distinct set slots make a count of at least two. */
  lemma TwoMarked(m: seq<bool>, k: int, j: int)
    requires 0 <= k < |m| && 0 <= j < |m| && k != j && m[k] && m[j]
    ensures CountNonzero(m) >= 2
  {
    CountUpdate(m, k, false);
    CountExtremes(m[k := false]);
    assert m[k := false][j];
  }

  /** A flaw map that marks exactly the cells in conflict never marks exactly
      one cell. */
  lemma FlawsComeInPairs(board: seq<Cands>, flawsBoard: seq<bool>)
    requires |board| == 81 && AllNonEmpty(board) && |flawsBoard| == 81
    requires forall k :: 0 <= k < 81 ==> flawsBoard[k] == InConflict(board, SpaceAt(k))
    ensures CountNonzero(flawsBoard) != 1
  {
    if CountNonzero(flawsBoard) != 0 {
      var k := SomeMarked(flawsBoard);
      assert InConflict(board, SpaceAt(k));
      var t := ConflictIsMutual(board, SpaceAt(k));
      var j := Index(t);
      assert SpaceAt(j) == t;
      assert flawsBoard[j];
      TwoMarked(flawsBoard, k, j);
    }
  }

  /** hasConflicts. It scans the square, then the positions sharing the global
      x (the loop the source labels "row"), then those sharing the global y
      (labelled "column"); together these are exactly the peers. Every cell is
      required non-empty so that each `getValue` it may reach is defined. */
  method HasConflicts(board: array<Cands>, space: Space) returns (conflict: bool)
    requires board.Length == 81 && ValidSpace(space) && AllNonEmpty(board[..])
    ensures conflict == InConflict(board[..], space)
  {
    var xy := CalculateGlobalXY(space.square, space.row, space.col);
    var spaceVal := GetValue(board[..], space);

    // other positions in the same square
    for y := 0 to 3
      invariant forall t :: ValidSpace(t) && t.square == space.square && t.row < y && t != space ==>
                  GetValue(board[..], t) != spaceVal
    {
      for x := 0 to 3
        invariant forall t ::
                    ValidSpace(t) && t.square == space.square && t != space &&
                    (t.row < y || (t.row == y && t.col < x))
                    ==> GetValue(board[..], t) != spaceVal
      {
        if (y, x) == (space.row, space.col) {
          continue;
        }
        if GetValue(board[..], Space(space.square, y, x)) == spaceVal {
          assert Peers(space, Space(space.square, y, x));
          return true;
        }
      }
    }

    // positions with the same global x
    for currY := 0 to 9
      invariant forall t :: ValidSpace(t) && GlobalX(t) == xy.0 && GlobalY(t) < currY && t != space ==>
                  GetValue(board[..], t) != spaceVal
    {
      var currSpace := CalculateSqRowCol(xy.0, currY);
      forall t | ValidSpace(t) && GlobalX(t) == xy.0 && GlobalY(t) == currY
        ensures t == currSpace
      {
        SqRowColOfGlobalXY(t);
      }
      if currSpace == space {
        continue;
      }
      if GetValue(board[..], currSpace) == spaceVal {
        assert Peers(space, currSpace);
        return true;
      }
    }

    // positions with the same global y
    for currX := 0 to 9
      invariant forall t :: ValidSpace(t) && GlobalY(t) == xy.1 && GlobalX(t) < currX && t != space ==>
                  GetValue(board[..], t) != spaceVal
    {
      var currSpace := CalculateSqRowCol(currX, xy.1);
      forall t | ValidSpace(t) && GlobalY(t) == xy.1 && GlobalX(t) == currX
        ensures t == currSpace
      {
        SqRowColOfGlobalXY(t);
      }
      if currSpace == space {
        continue;
      }
      if GetValue(board[..], currSpace) == spaceVal {
        assert Peers(space, currSpace);
        return true;
      }
    }

    return false;
  }

  /** detectFlaws, without its report: mark every cell in conflict and count
      them. */
  method DetectFlaws(board: array<Cands>) returns (flaws: nat, flawsBoard: array<bool>)
    requires board.Length == 81 && AllNonEmpty(board[..])
    ensures fresh(flawsBoard) && flawsBoard.Length == 81
    ensures forall k :: 0 <= k < 81 ==> flawsBoard[k] == InConflict(board[..], SpaceAt(k))
    ensures flaws == CountNonzero(flawsBoard[..])
  {
    flawsBoard := new bool[81](_ => false);
    flaws := 0;
    ghost var g := board[..];
    CountExtremes(flawsBoard[..]);
    for k := 0 to 81
      invariant forall j :: 0 <= j < k ==> flawsBoard[j] == InConflict(g, SpaceAt(j))
      invariant forall j :: k <= j < 81 ==> !flawsBoard[j]
      invariant flaws == CountNonzero(flawsBoard[..])
    {
      var conflict := HasConflicts(board, SpaceAt(k));
      if conflict {
        CountUpdate(flawsBoard[..], k, true);
        flawsBoard[k] := true;
        flaws := flaws + 1;
      }
    }
  }
}
