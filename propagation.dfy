/** Collapse and propagate: fix one cell to a digit and remove that digit from
    its unsolved peers, cascading into every peer left with one candidate. */
module Propagation {
  import opened Coordinates
  import opened Board

  /** collapseValue: one of the cell's remaining candidates. The source draws it
      with `random.choice`; here any candidate may be picked. */
  method CollapseValue(board: array<Cands>, space: Space) returns (v: int)
    requires board.Length == 81 && ValidSpace(space)
    requires CountNonzero(board[Index(space)]) >= 1
    ensures 0 <= v < 9 && board[Index(space)][v]
  {
    var possibilities := board[Index(space)];
    CountExtremes(possibilities);
    v :| 0 <= v < 9 && possibilities[v];
  }

  /** The presence vector `c` with every digit outside `plist` cleared. */
  function Keep(c: Cands, plist: seq<int>): Cands {
    seq(9, d requires 0 <= d < 9 => c[d] && d in plist)
  }

  /** updateSpace: clear every slot of the cell at `space` whose digit is not in
      `plist`; the other cells are untouched. */
  method UpdateSpace(board: array<Cands>, space: Space, plist: seq<int>)
    requires board.Length == 81 && ValidSpace(space)
    modifies board
    ensures board[..] == old(board[..])[Index(space) := Keep(old(board[Index(space)]), plist)]
  {
    var k := Index(space);
    for i := 0 to 9
      invariant forall j :: 0 <= j < 81 && j != k ==> board[j] == old(board[j])
      invariant forall d :: 0 <= d < 9 ==> board[k][d] == (old(board[k])[d] && (i <= d || d in plist))
    {
      if i !in plist {
        board[k] := board[k][i := false];
      }
    }
    assert board[k] == Keep(old(board[k]), plist);
  }

  /** The list [0, 1, ..., 8] with `v` removed, as `plist.remove(new_value)` leaves it. */
  function DigitsExcept(v: int): (plist: seq<int>)
    requires 0 <= v < 9
    ensures |plist| == 8
    ensures forall d :: d in plist <==> 0 <= d < 9 && d != v
  {
    var digits := [0, 1, 2, 3, 4, 5, 6, 7, 8];
    var head, tail := digits[..v], digits[v + 1..];
    assert forall i :: 0 <= i < 9 ==> digits[i] == i;
    assert forall d :: d in head <==> 0 <= d < v by {
      forall d | 0 <= d < v ensures d in head { assert head[d] == d; }
    }
    assert forall d :: d in tail <==> v < d < 9 by {
      forall d | v < d < 9 ensures d in tail { assert tail[d - v - 1] == d; }
    }
    head + tail
  }

  /** Keeping only a candidate collapses the cell onto it. */
  lemma KeepOne(c: Cands, v: int)
    requires 0 <= v < 9 && c[v]
    ensures Keep(c, [v]) == Single(v)
    ensures CountNonzero(Single(v)) == 1 && Within(Single(v), c)
  {
    assert Keep(c, [v]) == Single(v);
    var none: Cands := seq(9, d => false);
    assert Single(v) == none[v := true];
    CountExtremes(none);
    CountUpdate(none, v, true);
  }

  /** Keeping all digits but v clears v alone: a cell holding v loses exactly one
      candidate, any other cell none. */
  lemma KeepExcept(c: Cands, v: int)
    requires 0 <= v < 9
    ensures Keep(c, DigitsExcept(v)) == c[v := false]
    ensures CountNonzero(Keep(c, DigitsExcept(v))) == CountNonzero(c) - (if c[v] then 1 else 0)
  {
    assert Keep(c, DigitsExcept(v)) == c[v := false];
    CountUpdate(c, v, false);
  }

  /** Removing the collapsed digit from an unsolved cell narrows the board
      without emptying the cell; if it leaves one candidate, that cell had at
      least two at the start of the collapse. */
  lemma ClearStep(start: seq<Cands>, board: seq<Cands>, k: int, v: int)
    requires Narrows(start, board) && 0 <= k < |board| && 0 <= v < 9
    requires CountNonzero(board[k]) != 1
    ensures Narrows(start, board[k := Keep(board[k], DigitsExcept(v))])
    ensures !Keep(board[k], DigitsExcept(v))[v]
    ensures CountNonzero(Keep(board[k], DigitsExcept(v))) == 1 ==> CountNonzero(start[k]) > 1
  {
    var c := Keep(board[k], DigitsExcept(v));
    KeepExcept(board[k], v);
    CountSubset(board[k], start[k]);
    assert Within(c, start[k]);
  }

  /** Every peer of `space` scanned before position `k` is solved (or emptied)
      or no longer holds v. */
  ghost predicate Cleared(board: seq<Cands>, space: Space, v: int, k: int)
    requires |board| == 81 && 0 <= v < 9
  {
    forall t :: ValidSpace(t) && Index(t) < k && Peers(space, t) ==>
      CountNonzero(board[Index(t)]) <= 1 || !board[Index(t)][v]
  }

  /** Scanning position k keeps the property when that position is the collapsed
      cell itself, is no peer, is solved or emptied, or lacks v. */
  lemma ClearedNext(board: seq<Cands>, space: Space, v: int, k: int)
    requires |board| == 81 && 0 <= v < 9 && 0 <= k < 81
    requires Cleared(board, space, v, k)
    requires SpaceAt(k) == space || !Peers(space, SpaceAt(k)) || CountNonzero(board[k]) <= 1 || !board[k][v]
    ensures Cleared(board, space, v, k + 1)
  {
  }

  /** Clearing v from position k extends the property past k. */
  lemma ClearedUpdate(board: seq<Cands>, space: Space, v: int, k: int, c: Cands)
    requires |board| == 81 && 0 <= v < 9 && 0 <= k < 81
    requires Cleared(board, space, v, k) && !c[v]
    ensures Cleared(board[k := c], space, v, k + 1)
  {
  }

  lemma ClearedNarrows(before: seq<Cands>, after: seq<Cands>, space: Space, v: int, k: int)
    requires |before| == 81 && 0 <= v < 9 && Narrows(before, after)
    requires Cleared(before, space, v, k)
    ensures Cleared(after, space, v, k)
  {
    forall t | ValidSpace(t) && Index(t) < k && Peers(space, t)
      ensures CountNonzero(after[Index(t)]) <= 1 || !after[Index(t)][v]
    {
      CountSubset(after[Index(t)], before[Index(t)]);
    }
  }

  /** The digit of the cell at `s` is gone from every unsolved peer. */
  ghost predicate Propagated(board: seq<Cands>, s: Space)
    requires |board| == 81 && ValidSpace(s) && CountNonzero(board[Index(s)]) >= 1
  {
    forall t :: ValidSpace(t) && Peers(s, t) && CountNonzero(board[Index(t)]) > 1 ==>
      !board[Index(t)][GetValue(board, s)]
  }

  /** A solved cell whose digit is propagated stays solved and propagated on
      any narrower board. */
  lemma PropagatedNarrows(before: seq<Cands>, after: seq<Cands>, s: Space)
    requires |before| == 81 && ValidSpace(s) && Narrows(before, after)
    requires CountNonzero(before[Index(s)]) == 1 && Propagated(before, s)
    ensures CountNonzero(after[Index(s)]) == 1 && Propagated(after, s)
  {
    NarrowsKeepsSolved(before, after, Index(s));
    forall t | ValidSpace(t) && Peers(s, t) && CountNonzero(after[Index(t)]) > 1
      ensures !after[Index(t)][GetValue(after, s)]
    {
      CountSubset(after[Index(t)], before[Index(t)]);
    }
  }

  /** Every cell except `here` and `skip` that was unsolved on `start` and is
      solved on `board` has had its digit propagated. */
  ghost predicate Settled(start: seq<Cands>, board: seq<Cands>, here: int, skip: int)
    requires |start| == 81 && |board| == 81
  {
    forall j ::
      (0 <= j < 81 && j != here && j != skip &&
       CountNonzero(start[j]) > 1 && CountNonzero(board[j]) == 1) ==>
      Propagated(board, SpaceAt(j))
  }

  /** Clearing cell k keeps every other settled cell settled. */
  lemma ClearSettled(start: seq<Cands>, before: seq<Cands>, here: int, k: int, c: Cands)
    requires |start| == 81 && |before| == 81 && 0 <= k < 81
    requires Narrows(before, before[k := c]) && Settled(start, before, here, here)
    ensures Settled(start, before[k := c], here, k)
    ensures CountNonzero(c) != 1 ==> Settled(start, before[k := c], here, here)
  {
    var after := before[k := c];
    forall j | 0 <= j < 81 && j != here && j != k &&
        CountNonzero(start[j]) > 1 && CountNonzero(after[j]) == 1
      ensures Propagated(after, SpaceAt(j))
    {
      PropagatedNarrows(before, after, SpaceAt(j));
    }
  }

  /** After the nested collapse of cell k, every cell solved since `start` is
      settled: k by the nested call itself, the cells it solved by its
      cascade, and the cells solved earlier because narrowing keeps them. */
  lemma NestedSettled(start: seq<Cands>, mid: seq<Cands>, final: seq<Cands>, here: int, k: int)
    requires |start| == 81 && |mid| == 81 && 0 <= k < 81
    requires Narrows(mid, final) && Settled(start, mid, here, k)
    requires CountNonzero(final[k]) == 1 && Propagated(final, SpaceAt(k))
    requires forall j :: 0 <= j < 81 && CountNonzero(mid[j]) > 1 && CountNonzero(final[j]) == 1 ==>
               Propagated(final, SpaceAt(j))
    ensures Settled(start, final, here, here)
  {
    forall j | 0 <= j < 81 && j != here && j != k &&
        CountNonzero(start[j]) > 1 && CountNonzero(final[j]) == 1
      ensures Propagated(final, SpaceAt(j))
    {
      CountSubset(final[j], mid[j]);
      if CountNonzero(mid[j]) == 1 {
        PropagatedNarrows(mid, final, SpaceAt(j));
      }
    }
  }

  /** What the scan of `updateBoard` keeps on the board while it collapses the
      cell at `space` onto v from the board `start`: the board only narrowed,
      the cell holds v alone, the peers before position k are cleared of v, and
      every cell the cascade solved is propagated. */
  ghost predicate Scanning(start: seq<Cands>, board: seq<Cands>, space: Space, v: int, k: int)
    requires |start| == 81 && |board| == 81 && ValidSpace(space) && 0 <= v < 9
  {
    Narrows(start, board) && board[Index(space)] == Single(v) &&
    Cleared(board, space, v, k) && Settled(start, board, Index(space), Index(space))
  }

  /** Cell i is solved on digit d, is a peer of cell j, and is `here` or was
      unsolved on `start`: the collapse that can have cleared d from j. */
  ghost predicate Witness(start: seq<Cands>, board: seq<Cands>, here: int, i: int, j: int, d: int)
    requires |start| == 81 && |board| == 81 && 0 <= d < 9
  {
    0 <= i < 81 && 0 <= j < 81 && (i == here || CountNonzero(start[i]) > 1) &&
    CountNonzero(board[i]) == 1 && board[i][d] && Peers(SpaceAt(i), SpaceAt(j))
  }

  /** Every candidate removed since `start` from a cell other than `here` is
      the digit of a peer solved since `start`. */
  ghost predicate Explained(start: seq<Cands>, board: seq<Cands>, here: int)
    requires |start| == 81 && |board| == 81
  {
    forall j, d :: 0 <= j < 81 && j != here && 0 <= d < 9 && start[j][d] && !board[j][d] ==>
      exists i :: Witness(start, board, here, i, j, d)
  }

  /** A witness stays one on a narrower board: a solved cell keeps its digit. */
  lemma WitnessNarrows(start: seq<Cands>, before: seq<Cands>, after: seq<Cands>, here: int, i: int, j: int, d: int)
    requires |start| == 81 && |before| == 81 && 0 <= d < 9 && Narrows(before, after)
    requires Witness(start, before, here, i, j, d)
    ensures Witness(start, after, here, i, j, d)
  {
    NarrowsKeepsSolved(before, after, i);
  }

  /** Clearing v from a peer of the cell solved on v removes nothing that the
      collapse does not explain. */
  lemma ExplainedClear(start: seq<Cands>, before: seq<Cands>, here: int, k: int, v: int)
    requires |start| == 81 && |before| == 81 && 0 <= here < 81 && 0 <= k < 81 && 0 <= v < 9
    requires Explained(start, before, here) && CountNonzero(before[here]) == 1 && before[here][v]
    requires Peers(SpaceAt(here), SpaceAt(k)) && Narrows(before, before[k := Keep(before[k], DigitsExcept(v))])
    ensures Explained(start, before[k := Keep(before[k], DigitsExcept(v))], here)
  {
    var after := before[k := Keep(before[k], DigitsExcept(v))];
    KeepExcept(before[k], v);
    forall j, d | 0 <= j < 81 && j != here && 0 <= d < 9 && start[j][d] && !after[j][d]
      ensures exists i :: Witness(start, after, here, i, j, d)
    {
      if j == k && d == v {
        NarrowsKeepsSolved(before, after, here);
        assert Witness(start, after, here, here, j, d);
      } else {
        assert !before[j][d];
        var i :| Witness(start, before, here, i, j, d);
        WitnessNarrows(start, before, after, here, i, j, d);
      }
    }
  }

  /** After the nested collapse of peer k, every removal is explained: those
      before it by the outer collapse, those it made by k or by a cell its own
      cascade solved, which was unsolved on `start` too. */
  lemma ExplainedNested(start: seq<Cands>, mid: seq<Cands>, final: seq<Cands>, here: int, k: int)
    requires |start| == 81 && |mid| == 81 && 0 <= here < 81 && 0 <= k < 81 && k != here
    requires Narrows(start, mid) && Narrows(mid, final)
    requires Explained(start, mid, here) && Explained(mid, final, k)
    requires CountNonzero(mid[k]) == 1 && CountNonzero(start[k]) > 1
    ensures Explained(start, final, here)
  {
    forall j, d | 0 <= j < 81 && j != here && 0 <= d < 9 && start[j][d] && !final[j][d]
      ensures exists i :: Witness(start, final, here, i, j, d)
    {
      if !mid[j][d] {
        var i :| Witness(start, mid, here, i, j, d);
        WitnessNarrows(start, mid, final, here, i, j, d);
      } else {
        if j == k {
          NarrowsKeepsSolved(mid, final, k);
          assert false;
        }
        var i :| Witness(mid, final, k, i, j, d);
        if i != k {
          CountSubset(mid[i], start[i]);
        }
        assert Witness(start, final, here, i, j, d);
      }
    }
  }

  /** updateBoard: collapse the cell at `space` onto one of its candidates, then
      scan the board in order and remove that digit from each unsolved peer,
      recursing at once into any peer left with one candidate. The scan goes on
      over the board as the recursion left it and skips the cells it solved. */
  method UpdateBoard(board: array<Cands>, space: Space)
    requires board.Length == 81 && ValidSpace(space)
    requires CountNonzero(board[Index(space)]) >= 1
    modifies board
    decreases Unsolved(board[..]), 1
    // candidates are only removed, and no cell that had one loses its last
    ensures Narrows(old(board[..]), board[..])
    // the cell is collapsed onto one of its former candidates
    ensures CountNonzero(board[Index(space)]) == 1
    ensures old(board[Index(space)])[GetValue(board[..], space)]
    // no unsolved peer still holds the collapsed digit
    ensures Propagated(board[..], space)
    // and the same holds for every cell the cascade solved
    ensures forall j :: 0 <= j < 81 && CountNonzero(old(board[j])) > 1 && CountNonzero(board[j]) == 1 ==>
              Propagated(board[..], SpaceAt(j))
    // collapsing an unsolved cell lowers the unsolved count
    ensures CountNonzero(old(board[Index(space)])) > 1 ==> Unsolved(board[..]) < old(Unsolved(board[..]))
    // and nothing else: every candidate removed from another cell is the digit of a peer this call solved
    ensures Explained(old(board[..]), board[..], Index(space))
  {
    ghost var start := board[..];
    var here := Index(space);
    var xy := CalculateGlobalXY(space.square, space.row, space.col);
    var newValue := CollapseValue(board, space);
    UpdateSpace(board, space, [newValue]);
    KeepOne(start[here], newValue);

    var plist := DigitsExcept(newValue);
    for k := 0 to 81
      invariant Scanning(start, board[..], space, newValue, k)
      invariant Explained(start, board[..], here)
    {
      NarrowsUnsolved(start, board[..]);
      Visit(board, space, xy, newValue, plist, k, start);
    }
    SolvedIsSingle(board[here], newValue);
    NarrowsUnsolved(start, board[..]);
  }

  /** Passing over position k without a change keeps the scan going when the
      position is the collapsed cell, no peer, or already solved (or emptied). */
  lemma SkipStep(start: seq<Cands>, board: seq<Cands>, space: Space, v: int, k: int)
    requires |start| == 81 && |board| == 81 && ValidSpace(space) && 0 <= v < 9 && 0 <= k < 81
    requires Scanning(start, board, space, v, k)
    requires SpaceAt(k) == space || !Peers(space, SpaceAt(k)) || CountNonzero(board[k]) <= 1
    ensures Scanning(start, board, space, v, k + 1)
  {
    ClearedNext(board, space, v, k);
  }

  /** Clearing v from the unsolved peer at position k keeps the scan going, up
      to the propagation of that peer when the clearing solves it; it then
      lowers the unsolved count, which bounds the nested collapse. */
  lemma ClearScan(start: seq<Cands>, before: seq<Cands>, space: Space, v: int, k: int)
    requires |start| == 81 && |before| == 81 && ValidSpace(space) && 0 <= v < 9 && 0 <= k < 81
    requires Scanning(start, before, space, v, k)
    requires SpaceAt(k) != space && CountNonzero(before[k]) != 1 && Peers(space, SpaceAt(k))
    requires Explained(start, before, Index(space))
    ensures var after := before[k := Keep(before[k], DigitsExcept(v))];
      Narrows(start, after) && Narrows(before, after) && after[Index(space)] == Single(v) &&
      Cleared(after, space, v, k + 1) && Settled(start, after, Index(space), k) &&
      Explained(start, after, Index(space)) &&
      (CountNonzero(after[k]) != 1 ==> Scanning(start, after, space, v, k + 1)) &&
      (CountNonzero(after[k]) == 1 ==> Unsolved(after) < Unsolved(before) && CountNonzero(start[k]) > 1)
  {
    var c := Keep(before[k], DigitsExcept(v));
    var after := before[k := c];
    assert Index(space) != k;
    ClearStep(start, before, k, v);
    ClearStep(before, before, k, v);
    ClearedUpdate(before, space, v, k, c);
    ClearSettled(start, before, Index(space), k, c);
    assert SpaceAt(Index(space)) == space;
    KeepOne(Single(v), v);
    ExplainedClear(start, before, Index(space), k, v);
    if CountNonzero(c) == 1 {
      NarrowsUnsolved(before, after);
    }
  }

  /** After the nested collapse of the peer at position k the scan goes on:
      narrowing keeps what was cleared and settled, and the nested call settles
      the peer and every cell its cascade solved. */
  lemma NestedScan(start: seq<Cands>, mid: seq<Cands>, final: seq<Cands>, space: Space, v: int, k: int)
    requires |start| == 81 && |mid| == 81 && ValidSpace(space) && 0 <= v < 9 && 0 <= k < 81
    requires Narrows(start, mid) && mid[Index(space)] == Single(v)
    requires Cleared(mid, space, v, k + 1) && Settled(start, mid, Index(space), k)
    requires Narrows(mid, final)
    requires CountNonzero(final[k]) == 1 && Propagated(final, SpaceAt(k))
    requires forall j :: 0 <= j < 81 && CountNonzero(mid[j]) > 1 && CountNonzero(final[j]) == 1 ==>
               Propagated(final, SpaceAt(j))
    requires k != Index(space) && CountNonzero(mid[k]) == 1 && CountNonzero(start[k]) > 1
    requires Explained(start, mid, Index(space)) && Explained(mid, final, k)
    ensures Scanning(start, final, space, v, k + 1)
    ensures Explained(start, final, Index(space))
  {
    KeepOne(Single(v), v);
    NarrowsTrans(start, mid, final);
    NarrowsKeepsSolved(mid, final, Index(space));
    ClearedNarrows(mid, final, space, v, k + 1);
    NestedSettled(start, mid, final, Index(space), k);
    ExplainedNested(start, mid, final, Index(space), k);
  }

  /** One step of the scan of `updateBoard`: the position k of the board. A
      peer that is not yet solved loses v; if that leaves it one candidate, it
      is collapsed at once, with its own cascade, before the scan goes on. */
  method Visit(board: array<Cands>, space: Space, xy: (int, int), v: int, plist: seq<int>,
               k: int, ghost start: seq<Cands>)
    requires board.Length == 81 && |start| == 81 && ValidSpace(space) && 0 <= v < 9 && 0 <= k < 81
    requires xy == CalculateGlobalXY(space.square, space.row, space.col)
    requires plist == DigitsExcept(v)
    requires Scanning(start, board[..], space, v, k)
    requires Explained(start, board[..], Index(space))
    modifies board
    decreases Unsolved(board[..]), 0
    ensures Scanning(start, board[..], space, v, k + 1)
    ensures Explained(start, board[..], Index(space))
  {
    var other := SpaceAt(k);
    if other == space || CountNonzero(board[k]) == 1 {
      SkipStep(start, board[..], space, v, k);
      return;
    }
    var otherXY := CalculateGlobalXY(other.square, other.row, other.col);
    var sameRowCol := otherXY.0 == xy.0 || otherXY.1 == xy.1;
    if !(other.square == space.square || sameRowCol) {
      SkipStep(start, board[..], space, v, k);
      return;
    }
    ghost var before := board[..];
    UpdateSpace(board, other, plist);
    ClearScan(start, before, space, v, k);
    if CountNonzero(board[k]) == 1 {
      ghost var mid := board[..];
      UpdateBoard(board, other);
      NestedScan(start, mid, board[..], space, v, k);
    }
  }
}
