/**
 The backtracking search (solve). A cursor i runs over the squares in
 row-major order; givens are skipped, and at an empty square every digit whose
 bit is clear in the OR of the square's row, column and box fields is placed,
 searched below, and undone. Reaching i == 81 counts a solution and, for the
 first one, snapshots the board. Once the counter exceeds 1 every call stops.

 The source threads the board, the masks, the counter and the snapshot through
 the recursion by mutable reference; here they travel in a Frame that each
 call takes and returns.
 */
module Search {
  import opened Grid
  import opened Bits
  import opened Masks
  import opened Completions

  /** The mutable state of one solve run. The snapshot starts as the empty vector. */
  datatype Frame = Frame(grid: Board, masks: Masks, count: nat, snapshot: seq<Cell>)

  /**
   solve(solved_grid, grid, row, col, boxes, i, count): returns whether the
   search must stop (more than one solution seen) and the state afterwards.
   */
  function Solve(f: Frame, i: nat): (r: (bool, Frame))
    requires i <= 81
    ensures f.count <= r.1.count
    ensures f.count <= 2 ==> r.1.count <= 2
    ensures f.count > 1 ==> r == (true, f)
    ensures r.0 ==> r.1.count > 1
    ensures !r.0 ==> r.1.masks == f.masks && Restored(r.1.grid, f.grid)
    ensures f.count >= 1 ==> r.1.snapshot == f.snapshot
    ensures f.count == 0 && r.1.count >= 1 ==> |r.1.snapshot| == 81
    decreases 81 - i, 10
  {
    if f.count > 1 then (true, f)
    else if i == 81 then
      var snapshot := if f.count == 0 then f.grid else f.snapshot;
      (false, f.(snapshot := snapshot, count := f.count + 1))
    else if f.grid[i].Filled() then Solve(f, i + 1)
    else TryDigits(f, i, Forbidden(f.masks, i), 0)
  }

  /**
   The loop over candidates x = 0..8 at the empty square i (digit x + 1);
   `mask` is the forbidden set computed once before the loop.
   */
  function TryDigits(f: Frame, i: nat, mask: Word, x: nat): (r: (bool, Frame))
    requires i < 81 && x <= 9
    requires !f.grid[i].Filled()
    requires mask == Forbidden(f.masks, i)
    ensures f.count <= r.1.count
    ensures f.count <= 2 ==> r.1.count <= 2
    ensures r.0 ==> r.1.count > 1
    ensures !r.0 ==> r.1.masks == f.masks && Restored(r.1.grid, f.grid)
    ensures f.count >= 1 ==> r.1.snapshot == f.snapshot
    ensures f.count == 0 && r.1.count >= 1 ==> |r.1.snapshot| == 81
    decreases 81 - i, 9 - x
  {
    if x == 9 then (false, f)
    else if And(mask, Bit(x)) != Zero then TryDigits(f, i, mask, x + 1)
    else
      var placed := Frame(f.grid[i := Cell(Some(x + 1), true)], Place(f.masks, i, x), f.count, f.snapshot);
      var (stop, after) := Solve(placed, i + 1);
      if stop then (true, after)
      else
        UndoPlace(f.masks, i, x);
        var undone := after.(grid := after.grid[i := Blank], masks := Undo(after.masks, i, x));
        TryDigits(undone, i, mask, x + 1)
  }
}
