/**
 The classifier (solve_grid) and the Solve button that drives it. solve_grid
 builds the masks from the board, runs the search from square 0 with a zero
 counter and an empty snapshot, and reads the counter: exactly one solution
 replaces the board by the snapshot, otherwise the board is put back as it
 was given.
 */
module Classifier {
  import opened Grid
  import opened Masks
  import opened Completions
  import opened Search
  import opened SearchCorrect
  import opened Validator

  datatype SolveResult = Unique | NotUnique | Invalid

  /** The search state solve_grid starts from: the board, its masks, a zero counter and no snapshot. */
  function Start(g: Board): (f: Frame)
    ensures f.grid == g && f.count == 0 && Tracks(f.masks, g, 81) && InLayout(f.masks)
  {
    Frame(g, BuildMasks(g), 0, [])
  }

  /**
   solve_grid: the result and the board afterwards. Unless the result is
   Unique the board is the saved copy of the input, exactly.
   */
  function SolveGrid(g: Board): (res: (SolveResult, Board))
    ensures res.0 != Unique ==> res.1 == g
  {
    var r := Solve(Start(g), 0).1;
    if r.count == 1 then (Unique, r.snapshot)
    else if r.count > 1 then (NotUnique, g)
    else (Invalid, g)
  }

  /**
   On a conflict-free board the classification is exact: Invalid when the
   puzzle has no solution, Unique with the board replaced by its one solution,
   NotUnique when it has two or more.
   */
  lemma SolveGridCorrect(g: Board)
    requires Consistent(g)
    ensures SolveGrid(g).0 == Invalid <==> NoCompletion(g)
    ensures SolveGrid(g).0 == Unique <==> exists s :: UniqueCompletion(g, s)
    ensures SolveGrid(g).0 == Unique ==> UniqueCompletion(g, SolveGrid(g).1)
    ensures SolveGrid(g).0 == NotUnique <==> SeveralCompletions(g)
  {
    var start := Start(g);
    assert Invariant(start, 0);
    SolveCorrect(start, 0);
    var r := Solve(start, 0).1;
    CandFromZero(g, 0, 81);
    assert forall s :: Cand(g, 0, 0, s) <==> IsCompletion(g, s);
    if r.count == 1 {
      assert UniqueCompletion(g, r.snapshot);
    } else if r.count == 2 {
      var s :| Cand(g, 0, 0, s) && s != r.snapshot;
      assert IsCompletion(g, r.snapshot);
    }
  }

  /**
   A full conflict-free board has 81 givens, so the validator admits it; it is
   its own unique solution, and solving it changes nothing.
   */
  lemma SolveFullBoard(g: Board)
    requires Full(g) && Consistent(g)
    ensures FilledCount(g) == 81 >= MinClues
    ensures SolveGrid(g) == (Unique, g)
  {
    FullCompletions(g);
    SolveGridCorrect(g);
  }

  /** Solving is idempotent: solving the board a Unique run produced gives the same result again. */
  lemma SolveGridIdempotent(g: Board)
    requires Consistent(g)
    ensures SolveGrid(g).0 == Unique ==> SolveGrid(SolveGrid(g).1) == SolveGrid(g)
  {
    SolveGridCorrect(g);
    if SolveGrid(g).0 == Unique {
      var s := SolveGrid(g).1;
      assert IsCompletion(g, s);
      SolveFullBoard(s);
    }
  }

  const MsgSolved: string := ""
  const MsgNoSolution: string := "No valid solutions"
  const MsgNotUnique: string := "Solution is not unique"
  const MsgInvalidBoard: string := "Invalid board!"

  /**
   The Solve button: validate first, and only a board that passes is
   classified. Returns the message shown and the board afterwards.
   */
  method PressSolve(g: Board) returns (message: string, board: Board)
    ensures message == MsgInvalidBoard <==> !Consistent(g) || FilledCount(g) < MinClues
    ensures message == MsgSolved <==> Consistent(g) && FilledCount(g) >= MinClues && exists s :: UniqueCompletion(g, s)
    ensures message == MsgSolved ==> UniqueCompletion(g, board)
    ensures message == MsgNoSolution <==> Consistent(g) && FilledCount(g) >= MinClues && NoCompletion(g)
    ensures message == MsgNotUnique <==> Consistent(g) && FilledCount(g) >= MinClues && SeveralCompletions(g)
    ensures message != MsgSolved ==> board == g
  {
    board := g;
    var valid := VerifyGrid(g);
    if valid {
      SolveGridCorrect(g);
      var (result, solved) := SolveGrid(g);
      board := solved;
      match result
      case Unique => message := MsgSolved;
      case Invalid => message := MsgNoSolution;
      case NotUnique => message := MsgNotUnique;
    } else {
      message := MsgInvalidBoard;
    }
  }
}
