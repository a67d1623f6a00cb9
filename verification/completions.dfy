/**
 What a solution of a board is, independently of how the solver finds one:
 a full, conflict-free board that keeps every given and marks every square it
 filled as solver-filled. Also the search order on solutions and the notion of
 a board restored after backtracking.
 */
module Completions {
  import opened Grid

  /** s keeps every given of g and fills every empty square of g with a solver-flagged digit. */
  ghost predicate Fills(g: Board, s: Board)
  {
    forall k :: 0 <= k < 81 ==>
      if g[k].Filled() then s[k] == g[k] else s[k].Filled() && s[k].solved
  }

  /** s is a solution of the puzzle g. */
  ghost predicate IsCompletion(g: Board, s: seq<Cell>)
  {
    |s| == 81 && Fills(g, s) && Consistent(s)
  }

  ghost predicate NoCompletion(g: Board)
  {
    forall s :: !IsCompletion(g, s)
  }

  /** s is the one and only solution of g. */
  ghost predicate UniqueCompletion(g: Board, s: seq<Cell>)
  {
    IsCompletion(g, s) && forall t :: IsCompletion(g, t) ==> t == s
  }

  ghost predicate SeveralCompletions(g: Board)
  {
    exists s, t :: IsCompletion(g, s) && IsCompletion(g, t) && s != t
  }

  /** The digit of a square, 0 when it is empty. */
  function DigitAt(s: Board, k: int): int
    requires 0 <= k < 81
  {
    if s[k].Filled() then s[k].value.value else 0
  }

  /**
   The order in which the search meets boards: row-major, smaller digits
   first. a comes no later than b.
   */
  ghost predicate SearchOrderLe(a: Board, b: Board)
  {
    a == b || exists k :: 0 <= k < 81 && a[..k] == b[..k] && DigitAt(a, k) < DigitAt(b, k)
  }

  /**
   a is b after backtracking: every square is as in b, except that an empty
   square may have lost its solver flag (the undo writes an unflagged blank).
   */
  predicate Restored(a: Board, b: Board)
  {
    forall k :: 0 <= k < 81 ==> a[k] == b[k] || (!b[k].Filled() && a[k] == Blank)
  }

  /** Restoring is transitive, so nested backtracking composes. */
  lemma RestoredTrans(a: Board, b: Board, c: Board)
    requires Restored(a, b) && Restored(b, c)
    ensures Restored(a, c)
  {
  }

  /** On a board whose empty squares carry no flag, restoring gives back exactly that board. */
  lemma RestoredClean(a: Board, b: Board)
    requires Restored(a, b) && Clean(b)
    ensures a == b
  {
    forall k | 0 <= k < 81
      ensures a[k] == b[k]
    {
    }
  }

  /** A restored board has the same solutions, the same digits and the same consistency. */
  lemma RestoredSameCompletions(a: Board, b: Board)
    requires Restored(a, b)
    ensures forall s :: IsCompletion(a, s) <==> IsCompletion(b, s)
    ensures forall k :: 0 <= k < 81 ==> a[k].value == b[k].value
    ensures Consistent(a) <==> Consistent(b)
  {
    forall s | |s| == 81
      ensures Fills(a, s) <==> Fills(b, s)
    {
    }
    assert forall p, q :: 0 <= p < 81 && 0 <= q < 81 ==> (Clash(a, p, q) <==> Clash(b, p, q));
  }

  /** A full board is its own and only solution when it is consistent, and has none otherwise. */
  lemma FullCompletions(g: Board)
    requires Full(g)
    ensures Consistent(g) ==> UniqueCompletion(g, g)
    ensures !Consistent(g) ==> NoCompletion(g)
  {
    forall s | IsCompletion(g, s)
      ensures s == g
    {
      assert forall k :: 0 <= k < 81 ==> s[k] == g[k];
    }
  }
}
