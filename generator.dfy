/** The generation loop of `main`, without its board display and prompts. */
module Generator {
  import opened Coordinates
  import opened Board
  import opened Selector
  import opened Propagation
  import opened Conflicts

  /** Start from a board of all candidates; while some cell is unsolved,
      collapse one of lowest entropy; then scan the finished board for flaws.
      Every run ends with each cell holding exactly one digit, after at most
      81 collapses; the flaws found are reported, not repaired. */
  method Generate() returns (board: array<Cands>, flaws: nat, flawsBoard: array<bool>, ghost collapses: nat)
    ensures fresh(board) && board.Length == 81
    ensures forall k :: 0 <= k < 81 ==> CountNonzero(board[k]) == 1
    ensures fresh(flawsBoard) && flawsBoard.Length == 81
    ensures AllNonEmpty(board[..])
    ensures forall k :: 0 <= k < 81 ==> flawsBoard[k] == InConflict(board[..], SpaceAt(k))
    ensures flaws == CountNonzero(flawsBoard[..])
    ensures flaws != 1
    ensures collapses <= 81
  {
    board := InitBoard();
    collapses := 0;
    var unsolved := CountUnsolved(board);
    while unsolved > 0
      invariant fresh(board) && board.Length == 81
      invariant AllNonEmpty(board[..])
      invariant unsolved == Unsolved(board[..])
      invariant collapses + unsolved <= 81
      decreases unsolved
    {
      UnsolvedZero(board[..]);
      var space := LowestEntropy(board);
      UpdateBoard(board, space);
      unsolved := CountUnsolved(board);
      collapses := collapses + 1;
    }
    UnsolvedZero(board[..]);
    flaws, flawsBoard := DetectFlaws(board);
    FlawsComeInPairs(board[..], flawsBoard[..]);
  }
}
