/** The minimum-entropy selector. */
module Selector {
  import opened Coordinates
  import opened Board

  /** After the scan the collected positions are not empty: an unsolved cell
      has at most nine candidates, so the lowest entropy was seen somewhere. */
  lemma LowestNonEmpty(board: seq<Cands>, lowest: seq<Space>, lowestE: int)
    requires |board| == 81 && exists k :: 0 <= k < 81 && CountNonzero(board[k]) > 1
    requires forall j :: 0 <= j < 81 && CountNonzero(board[j]) > 1 ==> lowestE <= CountNonzero(board[j])
    requires forall j :: 0 <= j < 81 && CountNonzero(board[j]) == lowestE ==> SpaceAt(j) in lowest
    requires lowestE < 9 ==> lowest != []
    ensures lowest != []
  {
    var j :| 0 <= j < 81 && CountNonzero(board[j]) > 1;
    if lowestE == 9 {
      assert CountNonzero(board[j]) <= |board[j]|;
      assert SpaceAt(j) in lowest;
    }
  }

  /** The bound on the scanned positions carries over to every valid space. */
  lemma LowestBelow(board: seq<Cands>, lowestE: int)
    requires |board| == 81
    requires forall j :: 0 <= j < 81 && CountNonzero(board[j]) > 1 ==> lowestE <= CountNonzero(board[j])
    ensures forall t :: ValidSpace(t) && CountNonzero(board[Index(t)]) > 1 ==>
              lowestE <= CountNonzero(board[Index(t)])
  {
  }

  /** lowestEntropy: one of the unsolved cells with the fewest candidates.
      The scan over (square, row, col) is one loop over the 81 positions in
      the same order; the tie-break `random.choice` is a nondeterministic pick
      among the collected positions. The source crashes on an empty list, so
      some cell must still be unsolved. */
  method LowestEntropy(board: array<Cands>) returns (space: Space)
    requires board.Length == 81
    requires exists k :: 0 <= k < 81 && CountNonzero(board[k]) > 1
    ensures ValidSpace(space) && CountNonzero(board[Index(space)]) > 1
    ensures forall t :: ValidSpace(t) && CountNonzero(board[Index(t)]) > 1 ==>
              CountNonzero(board[Index(space)]) <= CountNonzero(board[Index(t)])
  {
    // positions of the lowest entropy seen so far
    var lowest: seq<Space> := [];
    // lowest entropy above 1 seen so far
    var lowestE := 9;
    for k := 0 to 81
      invariant 2 <= lowestE <= 9
      invariant forall t :: t in lowest ==>
                  ValidSpace(t) && CountNonzero(board[Index(t)]) == lowestE
      invariant forall j :: 0 <= j < k && CountNonzero(board[j]) > 1 ==> lowestE <= CountNonzero(board[j])
      invariant forall j :: 0 <= j < k && CountNonzero(board[j]) == lowestE ==> SpaceAt(j) in lowest
      invariant lowestE < 9 ==> lowest != []
    {
      var s := SpaceAt(k);
      var entropy := CountNonzero(board[k]);
      if entropy < lowestE && entropy > 1 {
        lowestE := entropy;
        lowest := [s];
      } else if entropy == lowestE {
        lowest := lowest + [s];
      }
    }
    LowestNonEmpty(board[..], lowest, lowestE);
    LowestBelow(board[..], lowestE);
    var i :| 0 <= i < |lowest|;
    space := lowest[i];
  }
}
