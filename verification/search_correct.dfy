/**
 What the search computes. Started on a conflict-free board whose masks record
 its digits, with the squares before the cursor filled, the counter ends up
 telling how many solutions the remaining search space holds (none, exactly
 one, or at least two), and the snapshot is the first of them in search order.
 */
module SearchCorrect {
  import opened Grid
  import opened Bits
  import opened Masks
  import opened Completions
  import opened Search

  /** What holds of every frame the search visits at cursor i. */
  ghost predicate Invariant(f: Frame, i: int)
  {
    && 0 <= i <= 81
    && (forall k :: 0 <= k < i ==> f.grid[k].Filled())
    && Consistent(f.grid)
    && Tracks(f.masks, f.grid, 81)
    && InLayout(f.masks)
  }

  /** The solutions of g still ahead of a search at square i that has tried digits up to lo there. */
  ghost predicate Cand(g: Board, i: int, lo: int, s: seq<Cell>)
  {
    IsCompletion(g, s) && (0 <= i < 81 ==> DigitAt(s, i) > lo)
  }

  /** snap is one of those solutions and comes first in search order. */
  ghost predicate IsFirst(snap: seq<Cell>, g: Board, i: int, lo: int)
  {
    Cand(g, i, lo, snap) && forall s :: Cand(g, i, lo, s) ==> SearchOrderLe(snap, s)
  }

  /**
   A run that started with counter c and ended in frame r has accounted for
   the candidate solutions: the counter grew by their number, capped at 2, and
   a first solution was snapshotted.
   */
  ghost predicate Accounts(c: nat, r: Frame, g: Board, i: int, lo: int)
  {
    && c <= r.count <= 2
    && (r.count == c ==> forall s :: !Cand(g, i, lo, s))
    && (c == 0 && r.count >= 1 ==> IsFirst(r.snapshot, g, i, lo))
    && (c == 0 && r.count == 1 ==> forall s :: Cand(g, i, lo, s) ==> s == r.snapshot)
    && (c == 0 && r.count == 2 ==> exists s :: Cand(g, i, lo, s) && s != r.snapshot)
    && (c == 1 && r.count == 2 ==> exists s :: Cand(g, i, lo, s))
  }

  // ---------------------------------------------------------------------
  // The two search functions

  /** The search from cursor i counts, capped at 2, the solutions of the current board and snapshots the first. */
  lemma {:induction false} SolveCorrect(f: Frame, i: nat)
    requires Invariant(f, i) && f.count <= 1
    ensures Accounts(f.count, Solve(f, i).1, f.grid, i, 0)
    decreases 81 - i, 10
  {
    var g := f.grid;
    if i == 81 {
      FullCompletions(g);
      var r := Solve(f, i).1;
      assert r.count == f.count + 1;
      forall s | Cand(g, i, 0, s)
        ensures s == g
      {
      }
      if f.count == 0 {
        assert r.snapshot == g;
        assert Cand(g, i, 0, g);
        forall s | Cand(g, i, 0, s)
          ensures SearchOrderLe(r.snapshot, s)
        {
        }
      } else {
        assert Cand(g, i, 0, g);
      }
    } else if g[i].Filled() {
      SolveCorrect(f, i + 1);
      CandFromZero(g, i, i + 1);
      Transfer(f.count, Solve(f, i + 1).1, g, i, 0, g, i + 1, 0);
    } else {
      TryCorrect(f, i, Forbidden(f.masks, i), 0);
    }
  }

  /** The candidate loop from digit x + 1 on counts, capped at 2, the solutions with a digit above x at square i. */
  lemma {:induction false} TryCorrect(f: Frame, i: nat, mask: Word, x: nat)
    requires i < 81 && x <= 9
    requires Invariant(f, i) && f.count <= 1
    requires !f.grid[i].Filled()
    requires mask == Forbidden(f.masks, i)
    ensures Accounts(f.count, TryDigits(f, i, mask, x).1, f.grid, i, x)
    decreases 81 - i, 9 - x, 2
  {
    var g := f.grid;
    if x == 9 {
      forall s | IsCompletion(g, s)
        ensures !Cand(g, i, x, s)
      {
      }
    } else if And(mask, Bit(x)) != Zero {
      TryBlocked(f, i, mask, x);
    } else {
      TryAllowed(f, i, mask, x);
    }
  }

  /** The candidate loop at a forbidden digit skips it, losing no solution. */
  lemma {:induction false} TryBlocked(f: Frame, i: nat, mask: Word, x: nat)
    requires i < 81 && x < 9
    requires Invariant(f, i) && f.count <= 1
    requires !f.grid[i].Filled()
    requires mask == Forbidden(f.masks, i)
    requires And(mask, Bit(x)) != Zero
    ensures Accounts(f.count, TryDigits(f, i, mask, x).1, f.grid, i, x)
    decreases 81 - i, 9 - x, 1
  {
    TryCorrect(f, i, mask, x + 1);
    BlockedDigit(f, i, x);
    Transfer(f.count, TryDigits(f, i, mask, x + 1).1, f.grid, i, x, f.grid, i, x + 1);
  }

  /** The candidate loop at an allowed digit: search the branch, and stop if it says so. */
  lemma {:induction false} TryAllowed(f: Frame, i: nat, mask: Word, x: nat)
    requires i < 81 && x < 9
    requires Invariant(f, i) && f.count <= 1
    requires !f.grid[i].Filled()
    requires mask == Forbidden(f.masks, i)
    requires And(mask, Bit(x)) == Zero
    ensures Accounts(f.count, TryDigits(f, i, mask, x).1, f.grid, i, x)
    decreases 81 - i, 9 - x, 1
  {
    var g := f.grid;
    var placed := Frame(g[i := Cell(Some(x + 1), true)], Place(f.masks, i, x), f.count, f.snapshot);
    var (stop, after) := Solve(placed, i + 1);
    if stop {
      PlaceKeepsInvariant(f, i, x);
      SolveCorrect(placed, i + 1);
      assert TryDigits(f, i, mask, x).1 == after;
      Combine(f.count, after, after, g, i, x);
    } else {
      TryBacktrack(f, i, mask, x);
    }
  }

  /** After a branch that did not stop: undo the placement and go on with the next digit. */
  lemma {:induction false} TryBacktrack(f: Frame, i: nat, mask: Word, x: nat)
    requires i < 81 && x < 9
    requires Invariant(f, i) && f.count <= 1
    requires !f.grid[i].Filled()
    requires mask == Forbidden(f.masks, i)
    requires And(mask, Bit(x)) == Zero
    requires !Solve(Frame(f.grid[i := Cell(Some(x + 1), true)], Place(f.masks, i, x), f.count, f.snapshot), i + 1).0
    ensures Accounts(f.count, TryDigits(f, i, mask, x).1, f.grid, i, x)
    decreases 81 - i, 9 - x, 0
  {
    var g := f.grid;
    var placed := Frame(g[i := Cell(Some(x + 1), true)], Place(f.masks, i, x), f.count, f.snapshot);
    PlaceKeepsInvariant(f, i, x);
    SolveCorrect(placed, i + 1);
    var after := Solve(placed, i + 1).1;
    UndoPlace(f.masks, i, x);
    var undone := after.(grid := after.grid[i := Blank], masks := Undo(after.masks, i, x));
    UndoRestores(g, placed.grid, after.grid, i);
    var r := TryDigits(undone, i, mask, x + 1);
    assert TryDigits(f, i, mask, x) == r;
    if after.count <= 1 {
      RestoredKeepsInvariant(f, undone, i);
      TryCorrect(undone, i, mask, x + 1);
      RestoredSameCompletions(undone.grid, g);
      Transfer(after.count, r.1, g, i, x + 1, undone.grid, i, x + 1);
    }
    Combine(f.count, after, r.1, g, i, x);
  }

  // ---------------------------------------------------------------------
  // Steps of the proof

  /** Candidate sets that agree make the same accounting true. */
  lemma Transfer(c: nat, r: Frame, g: Board, i: int, lo: int, g': Board, i': int, lo': int)
    requires Accounts(c, r, g', i', lo')
    requires forall s :: Cand(g, i, lo, s) <==> Cand(g', i', lo', s)
    ensures Accounts(c, r, g, i, lo)
  {
  }

  /** Every square of a solution holds a digit. */
  lemma CompletionFilled(g: Board, s: seq<Cell>, k: int)
    requires IsCompletion(g, s) && 0 <= k < 81
    ensures DigitAt(s, k) >= 1
  {
    assert Fills(g, s);
    if g[k].Filled() {
      assert s[k] == g[k];
    }
  }

  /** With nothing tried yet, the candidates are all solutions, wherever the cursor is. */
  lemma CandFromZero(g: Board, i: int, j: int)
    ensures forall s :: Cand(g, i, 0, s) <==> Cand(g, j, 0, s)
  {
    forall s | IsCompletion(g, s)
      ensures Cand(g, i, 0, s) && Cand(g, j, 0, s)
    {
      if 0 <= i < 81 {
        CompletionFilled(g, s, i);
      }
      if 0 <= j < 81 {
        CompletionFilled(g, s, j);
      }
    }
  }

  /** A digit whose bit is set in the forbidden mask appears in no solution at square i. */
  lemma BlockedDigit(f: Frame, i: int, x: int)
    requires 0 <= i < 81 && 0 <= x < 9
    requires Invariant(f, i) && !f.grid[i].Filled()
    requires And(Forbidden(f.masks, i), Bit(x)) != Zero
    ensures forall s :: Cand(f.grid, i, x, s) <==> Cand(f.grid, i, x + 1, s)
  {
    var g := f.grid;
    AllowedIff(f.masks, i, x);
    var kind: Kind :| Occupied(f.masks, kind, Group(kind, i), x + 1);
    assert Holds(g, 81, kind, Group(kind, i), x + 1);
    var p :| 0 <= p < 81 && Group(kind, p) == Group(kind, i) && g[p].value == Some(x + 1);
    assert p != i;
    forall s | Cand(g, i, x, s)
      ensures DigitAt(s, i) != x + 1
    {
      assert s[p] == g[p];
      if DigitAt(s, i) == x + 1 {
        assert Clash(s, p, i);
      }
    }
  }

  /** The search only places digits that keep the board conflict-free, and its masks follow. */
  lemma PlaceKeepsInvariant(f: Frame, i: int, x: int)
    requires 0 <= i < 81 && 0 <= x < 9
    requires Invariant(f, i) && !f.grid[i].Filled()
    requires Allowed(f.masks, i, x)
    ensures Invariant(Frame(f.grid[i := Cell(Some(x + 1), true)], Place(f.masks, i, x), f.count, f.snapshot), i + 1)
  {
    PlaceTracks(f.masks, f.grid, i, x, true);
    PlaceInLayout(f.masks, i, x);
    PlaceConsistent(f.masks, f.grid, i, x);
  }

  /** An allowed digit clashes with no digit already on the board. */
  lemma PlaceConsistent(m: Masks, g: Board, i: int, x: int)
    requires 0 <= i < 81 && 0 <= x < 9
    requires Consistent(g) && Tracks(m, g, 81) && !g[i].Filled()
    requires Allowed(m, i, x)
    ensures Consistent(g[i := Cell(Some(x + 1), true)])
  {
    var g' := g[i := Cell(Some(x + 1), true)];
    AllowedIff(m, i, x);
    forall p, q | 0 <= p < 81 && 0 <= q < 81
      ensures !Clash(g', p, q)
    {
      if p != i && q != i {
        assert !Clash(g, p, q);
      }
    }
  }

  /** The solutions of the board with x + 1 placed at i are those of the board whose square i holds x + 1. */
  lemma BranchCands(g: Board, i: int, x: int)
    requires 0 <= i < 81 && 0 <= x < 9 && !g[i].Filled()
    ensures forall s :: Cand(g[i := Cell(Some(x + 1), true)], i + 1, 0, s) <==>
                          Cand(g, i, x, s) && DigitAt(s, i) == x + 1
  {
    var g' := g[i := Cell(Some(x + 1), true)];
    CandFromZero(g', i + 1, i);
    forall s: seq<Cell> | |s| == 81
      ensures Fills(g', s) <==> Fills(g, s) && DigitAt(s, i) == x + 1
    {
      if Fills(g', s) {
        assert s[i] == g'[i];
      }
      if Fills(g, s) && DigitAt(s, i) == x + 1 {
        assert s[i].solved;
        assert s[i] == g'[i];
      }
    }
  }

  /** Undoing the placement brings the board back to a restored copy of the one before it. */
  lemma UndoRestores(g: Board, placed: Board, after: Board, i: int)
    requires 0 <= i < 81 && !g[i].Filled()
    requires forall k :: 0 <= k < 81 && k != i ==> placed[k] == g[k]
    requires Restored(after, placed)
    ensures Restored(after[i := Blank], g)
  {
  }

  /** A restored board satisfies the invariant whenever the original did. */
  lemma RestoredKeepsInvariant(f: Frame, f': Frame, i: int)
    requires Invariant(f, i)
    requires Restored(f'.grid, f.grid) && f'.masks == f.masks
    ensures Invariant(f', i)
  {
    RestoredSameCompletions(f'.grid, f.grid);
    forall kind: Kind, grp: int, d: Digit | 0 <= grp < 9
      ensures Holds(f'.grid, 81, kind, grp, d) <==> Holds(f.grid, 81, kind, grp, d)
    {
      if Holds(f'.grid, 81, kind, grp, d) {
        var p :| 0 <= p < 81 && Group(kind, p) == grp && f'.grid[p].value == Some(d);
        assert Holds(f.grid, 81, kind, grp, d);
      }
      if Holds(f.grid, 81, kind, grp, d) {
        var p :| 0 <= p < 81 && Group(kind, p) == grp && f.grid[p].value == Some(d);
        assert Holds(f'.grid, 81, kind, grp, d);
      }
    }
  }

  /** Two solutions that agree before square i, where the board is filled, are ordered by their digit at i. */
  lemma OrderedAtCursor(g: Board, i: int, a: seq<Cell>, b: seq<Cell>)
    requires 0 <= i < 81
    requires forall k :: 0 <= k < i ==> g[k].Filled()
    requires IsCompletion(g, a) && IsCompletion(g, b)
    requires DigitAt(a, i) < DigitAt(b, i)
    ensures SearchOrderLe(a, b)
  {
    assert Fills(g, a) && Fills(g, b);
    assert forall k :: 0 <= k < i ==> a[k] == g[k] == b[k];
    assert a[..i] == b[..i];
  }

  /** The first solution of the branch for digit x + 1 is the first solution with a digit above x at square i. */
  lemma FirstOfBranch(g: Board, i: int, x: int, snap: seq<Cell>)
    requires 0 <= i < 81 && 0 <= x < 9 && !g[i].Filled()
    requires forall k :: 0 <= k < i ==> g[k].Filled()
    requires IsFirst(snap, g[i := Cell(Some(x + 1), true)], i + 1, 0)
    ensures IsFirst(snap, g, i, x)
  {
    var g1 := g[i := Cell(Some(x + 1), true)];
    BranchCands(g, i, x);
    assert Cand(g, i, x, snap) && DigitAt(snap, i) == x + 1;
    forall s | Cand(g, i, x, s)
      ensures SearchOrderLe(snap, s)
    {
      if DigitAt(s, i) == x + 1 {
        assert Cand(g1, i + 1, 0, s);
      } else {
        OrderedAtCursor(g, i, snap, s);
      }
    }
  }

  /**
   The accounting of one branch (digit x + 1 at square i) followed by the
   accounting of the remaining digits is the accounting of all digits above x.
   */
  lemma Combine(c: nat, after: Frame, r: Frame, g: Board, i: int, x: int)
    requires 0 <= i < 81 && 0 <= x < 9 && c <= 1 && !g[i].Filled()
    requires forall k :: 0 <= k < i ==> g[k].Filled()
    requires Accounts(c, after, g[i := Cell(Some(x + 1), true)], i + 1, 0)
    requires after.count <= r.count <= 2
    requires after.count >= 1 ==> r.snapshot == after.snapshot
    requires after.count <= 1 ==> Accounts(after.count, r, g, i, x + 1)
    ensures Accounts(c, r, g, i, x)
  {
    var g1 := g[i := Cell(Some(x + 1), true)];
    BranchCands(g, i, x);
    assert forall s :: Cand(g, i, x, s) <==> Cand(g1, i + 1, 0, s) || Cand(g, i, x + 1, s);
    var c1 := after.count;
    if c1 == c {
      Transfer(c, r, g, i, x, g, i, x + 1);
    } else {
      var snap := after.snapshot;
      if c == 0 {
        FirstOfBranch(g, i, x, snap);
      }
      if c == 0 && r.count == 1 {
        forall s | Cand(g, i, x, s)
          ensures s == snap
        {
        }
      }
      if c == 0 && r.count == 2 {
        if c1 == 2 {
          var s :| Cand(g1, i + 1, 0, s) && s != snap;
          assert Cand(g, i, x, s);
        } else {
          var s :| Cand(g, i, x + 1, s);
          assert DigitAt(s, i) != DigitAt(snap, i);
          assert Cand(g, i, x, s) && s != snap;
        }
      }
      if c == 1 && r.count == 2 {
        var s :| Cand(g1, i + 1, 0, s);
        assert Cand(g, i, x, s);
      }
    }
  }
}
