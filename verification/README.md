# Sudoku solver engine in Dafny

A model of the engine of a small Sudoku solver. The engine has three parts:

- the validator `verify_grid`;
- the backtracking search `solve`;
- the classifier `solve_grid`.

The model also covers the order in which the Solve button calls them.

The board is a row-major sequence of 81 squares. Square (r, c) sits at index `r * 9 + c`. Each square is either empty or holds a digit 1..9, and carries the `solved_cell` flag, which marks squares the solver filled.

The three `u128` occupancy masks (row, column, box) are modelled as the sets of their 1-bits, so every bit index is below 128:

- `|` is union, `&` is intersection and `^` is symmetric difference;
- `<<` drops the bits it pushes past bit 127;
- `>>` drops the bits it pushes below bit 0.

Digit d in group grp is bit `grp * 9 + (d - 1)`.

The search threads one state through the recursion: the board, the masks, the solution counter and the first-solution snapshot. In the source that state is mutable and passed by reference. Here it is a `Frame` value that each call takes and returns.

Two different "invalid" outcomes are kept apart, as the code keeps them. A board with a conflict or with fewer than 17 givens is stopped by the validator, and the button shows "Invalid board!". The classifier's `Invalid` result means only that the search found no solution.

Modules, one per file:

| module | file | contents |
|---|---|---|
| `Grid` | `grid.dfy` | squares, the board, rows/columns/boxes, the Sudoku constraint `Consistent` |
| `Bits` | `bits.dfy` | the 128-bit word and its operators |
| `Masks` | `masks.dfy` | the mask layout; place, undo and the forbidden-digit mask; `Tracks`, which says that masks describe a board; the initial mask build |
| `Validator` | `validator.dfy` | `verify_grid` as a loop with invariants |
| `Completions` | `completions.dfy` | what a solution of a puzzle is, the search order, and boards restored by backtracking |
| `Search` | `search.dfy` | `solve` and its digit loop, as two mutually recursive functions |
| `SearchCorrect` | `search_correct.dfy` | what the search computes: the counter (capped at 2) counts the solutions, and the snapshot is the first one in search order |
| `Classifier` | `classifier.dfy` | `SolveResult`, `solve_grid` and the Solve button |

## Model

| member | source | states |
|---|---|---|
| Validator.VerifyGrid | src/solver.rs:4-43 | The validator accepts a board exactly when no row, column or box holds a digit twice and at least 17 squares are filled. It cannot modify the board, because the board is a value. |
| Grid.CountFilled | src/solver.rs:9-16 | The `cells` counter over the first n squares counts the filled ones. It never exceeds n, and it equals n exactly when none of the n squares is empty, so a full board counts 81. |
| Validator.ProbeIff | src/solver.rs:18-36 | The probe (the OR of `row & key_row`, `col & key_col` and `boxes & key_boxes`) is nonzero exactly when the current square clashes with an earlier one. When it is nonzero, the prefix up to and including the square has a conflict, and so does the board. When it is zero, that prefix is conflict-free and ORing the three keys in gives its masks. |
| Validator.ProbeNonzero | src/solver.rs:29-31 | A nonzero probe means the prefix up to and including the square has a conflict, and so does the board. |
| Validator.ProbeZero | src/solver.rs:33-36 | A zero probe means the prefix up to and including the square is conflict-free, and ORing the three keys in gives its masks and count. |
| Validator.ProbeHit | src/solver.rs:29-31 | A digit already recorded in one of the square's groups is a conflict of the prefix ending at that square, and of the board. |
| Validator.KeyBits | src/solver.rs:18-26 | The keys `1 << (i*9+key)`, `1 << (j*9+key)` and `1 << ((i/3*3+j/3)*9+key)` are the single bits of the digit at its row, column and box positions. |
| Validator.ProbeMiss | src/solver.rs:33-36 | When the probe is zero, ORing the three keys into the masks and counting the square gives the masks, consistency and count of the prefix one square longer. |
| Validator.KeyPositions | src/solver.rs:18-26 | The validator's indices `i*9+key`, `j*9+key` and `(i/3*3+j/3)*9+key` are the layout positions of the digit in the square's row, column and box. |
| Validator.ProbeBits | src/solver.rs:29 | The probe is nonzero exactly when one of the square's three groups already records the digit. |
| Validator.ClashFromHit | src/solver.rs:29-31 | A recorded digit in one of the square's groups means an earlier square holds the same digit, so the scanned prefix is not conflict-free. |
| Validator.NoClashExtends | src/solver.rs:33-36 | When none of the square's groups records its digit, the scanned prefix extended by that square stays conflict-free. |
| Validator.PrefixClash | src/solver.rs:29-30 | A conflict inside the scanned prefix is a conflict of the whole board, so returning false early is correct. |
| Masks.PosLayout | src/solver.rs:61-66 | Every bit index `grp*9+(d-1)` is below 81, so it fits in the `u128`. Distinct (group, digit) pairs get distinct bits. |
| Masks.GroupKey | src/solver.rs:148-150 | The key `xmask << (grp*9)` with `xmask = 1 << x` for square k's group of one kind. It has no contract of its own; `Masks.GroupKeyIsBit` states its value. |
| Masks.Place | src/solver.rs:148-150 | The three ORs of a placement, as a definition. `Masks.OccupiedAfterPlace` and `Masks.PlaceTracks` state what it records. |
| Masks.Undo | src/solver.rs:161-163 | The three XORs of the undo, as a definition. `Masks.UndoPlace` states that it inverts `Place` for an allowed digit. |
| Masks.Forbidden | src/solver.rs:137 | The mask `mask`: the OR of `row >> r*9`, `col >> c*9` and `boxes >> b*9`, as a definition. `Masks.ShrBit` and `Masks.AllowedIff` state what its bits mean. |
| Masks.Allowed | src/solver.rs:142-143 | The candidate test `mask & xmask == 0`, as a definition. `Masks.AllowedIff` states when it passes. |
| Masks.GroupKeyIsBit | src/solver.rs:148-150 | `xmask << (grp*9)` with `xmask = 1 << x` is the single bit of digit x+1 in group grp. Nothing is lost off the top of the word. |
| Masks.AllowedIff | src/solver.rs:133-145 | The test `mask & xmask == 0` on the OR of `row >> r*9`, `col >> c*9` and `boxes >> b*9` passes exactly when digit x+1 is recorded in none of the square's row, column and box. |
| Masks.ShrBit | src/solver.rs:137 | Bit x of a mask shifted right by grp*9 is the bit of digit x+1 in group grp. |
| Masks.OccupiedAfterPlace | src/solver.rs:147-150 | After the three ORs, the masks record the old digits plus the placed digit in the square's three groups, and nothing else. |
| Masks.UndoPlace | src/solver.rs:143-163 | Setting the three bits and XORing them back restores the masks exactly, for every digit the search found allowed. |
| Masks.BuildMasks | src/solver.rs:57-69 | The masks built by solve_grid's double loop record exactly the digits on the board, and no bit outside the 81-bit layout is set. `Masks.TrackedBits` turns this into: bit b is set iff some square of group b / 9 holds digit b % 9 + 1. |
| Masks.PlaceInLayout | src/solver.rs:148-150 | The three ORs of a placement set only bits below 81. |
| Masks.MasksOfInLayout | src/solver.rs:57-69 | The masks built from the first n squares set only bits below 81. |
| Masks.TrackedBits | src/solver.rs:57-69 | For masks that record the board's digits and stay inside the layout, bit b of a mask is set exactly when b < 81 and some square of group b / 9 holds digit b % 9 + 1. Every set bit therefore corresponds to a filled square. |
| Masks.MasksOf | src/solver.rs:57-69 | The double loop of solve_grid, as a fold over the first n squares: an empty square adds nothing and a filled one is placed. `Masks.MasksOfTracks` states what it records. |
| Masks.MasksOfTracks | src/solver.rs:57-69 | The masks built from the first n squares record exactly the digits of those squares. |
| Masks.TracksStep | src/solver.rs:57-67 | One more scanned square: an empty one leaves the recorded digits unchanged, and a filled one adds its digit to its three groups. |
| Masks.TracksStepFilled | src/solver.rs:59-66 | A filled square adds its digit to its row, column and box fields and changes nothing else. |
| Masks.PlaceTracks | src/solver.rs:147-154 | Writing a digit on an empty square and ORing its bits keeps masks and board in step. |
| Bits.ShiftedBit | src/solver.rs:142-150 | `(1 << x) << n` is bit n+x whenever n+x < 128. |
| Bits.Bit | src/solver.rs:142 | `1 << n`: the word whose only set bit is n. A definition with no contract. |
| Bits.Or | src/solver.rs:34-36 | Bitwise OR: union of the set bits. A definition with no contract. |
| Bits.And | src/solver.rs:29 | `a & b`: intersection of the set bits. A definition with no contract. |
| Bits.Xor | src/solver.rs:161-163 | `a ^ b`: symmetric difference of the set bits. A definition with no contract. |
| Bits.Shl | src/solver.rs:148-150 | `w << n`: bit b is set exactly when n ≤ b < 128 and bit b-n of w is set, so bits pushed past the top are lost. |
| Bits.Shr | src/solver.rs:137 | `w >> n`: bit b is set exactly when bit b+n of w is set, so bits pushed below bit 0 are lost. |
| Bits.TestBit | src/solver.rs:143 | `w & (1 << x) != 0` exactly when bit x of w is set. |
| Bits.XorUndo | src/solver.rs:161-163 | XORing back a bit that was clear before the OR gives back the word. |
| Bits.XorUndoNeedsClearBit | src/solver.rs:143-163 | If the bit was already set, the OR-then-XOR pair changes the word. This is why the search checks the bit first. |
| Completions.RestoredClean | src/solver.rs:161-166 | A board restored by backtracking equals the original when no empty square of the original carried the solver flag. |
| Completions.RestoredSameCompletions | src/solver.rs:165-166 | A restored board has the same digits, the same solutions and the same consistency as the original. |
| Completions.FullCompletions | src/solver.rs:113-120 | A full board is its own unique solution if it is conflict-free, and has no solution otherwise. |
| Search.Solve | src/solver.rs:98-130 | The counter never decreases and never exceeds 2. Once it is above 1 the call returns true and changes nothing. A true return means the counter is above 1. A false return leaves the masks unchanged and the board restored. The snapshot is written only while the counter is 0, and is then a whole board. |
| Search.TryDigits | src/solver.rs:139-169 | The same counter, stop, snapshot and no-residue guarantees for the loop over digits at an empty square, including the XOR undo and the cleared square. |
| SearchCorrect.SolveCorrect | src/solver.rs:98-130 | Started on a conflict-free board with matching masks and counter c ≤ 1, the search raises the counter by the number of the board's solutions, capped at 2. It snapshots the first solution in row-major, ascending-digit order. When the counter ends at 1, that snapshot is the only solution. |
| SearchCorrect.TryCorrect | src/solver.rs:139-169 | From digit x+1 on, the loop at square i accounts in the same way for exactly the solutions whose digit at i is above x. |
| SearchCorrect.TryBlocked | src/solver.rs:143-145 | Skipping a digit whose bit is set in the mask loses no solution: the count and snapshot cover the same solutions. |
| SearchCorrect.TryAllowed | src/solver.rs:147-158 | For an allowed digit, searching its branch (and stopping when it says so) accounts for the solutions with a digit above x at square i. |
| SearchCorrect.TryBacktrack | src/solver.rs:156-167 | When the branch does not stop, undoing the placement and trying the next digits accounts for the branch's solutions followed by those of the larger digits. |
| SearchCorrect.BlockedDigit | src/solver.rs:137-145 | A digit whose bit is set in the forbidden mask appears at square i in no solution, so skipping it loses nothing. |
| SearchCorrect.PlaceKeepsInvariant | src/solver.rs:147-154 | A placement the mask allows keeps the board conflict-free and the masks in step with it, with no bit set outside the layout. |
| SearchCorrect.PlaceConsistent | src/solver.rs:143-154 | An allowed digit clashes with no digit already on the board. |
| SearchCorrect.BranchCands | src/solver.rs:153-154 | The solutions of the board with x+1 written at i and flagged as solver-filled are exactly the solutions that hold x+1 there. |
| SearchCorrect.UndoRestores | src/solver.rs:165-166 | Clearing the square after a failed branch gives a restored copy of the board before the placement. |
| SearchCorrect.FirstOfBranch | src/solver.rs:139-158 | The first solution of the branch for digit x+1 is the first solution, in search order, among those with a digit above x at square i. |
| SearchCorrect.Combine | src/solver.rs:139-169 | One digit's branch followed by the remaining digits accounts for all solutions with a digit above x at square i. |
| SearchCorrect.OrderedAtCursor | src/solver.rs:139 | Two solutions that agree before square i are ordered by their digit at i, because digits are tried in ascending order. |
| Classifier.SolveGrid | src/solver.rs:72-95 | Unless the result is Unique, the board afterwards is exactly the saved input. |
| Classifier.Start | src/solver.rs:53-80 | The state solve_grid hands to the search: the input board, masks that record exactly its digits and set no other bit, a zero counter and an empty snapshot. |
| Classifier.SolveGridCorrect | src/solver.rs:51-96 | On a conflict-free board: Invalid iff the puzzle has no solution; Unique iff it has exactly one, and the board becomes that solution (givens kept, every empty square filled and flagged as solver-filled); NotUnique iff it has two or more. |
| Classifier.SolveFullBoard | src/solver.rs:51-96 | A full conflict-free board has 81 givens, so the validator's 17-given threshold admits it. It classifies Unique and comes back unchanged. |
| Classifier.SolveGridIdempotent | src/solver.rs:82-86 | On a conflict-free board, solving the board that a Unique run produced gives the same result and the same board again. |
| Classifier.PressSolve | src/main.rs:81-101 | The Solve button validates first. It reports "Invalid board!" exactly for boards with a conflict or fewer than 17 givens. Otherwise it reports "", "No valid solutions" or "Solution is not unique" exactly when the puzzle has one, no or several solutions. Only the first case changes the board, and then to the unique solution. |

## Left out

- The window, theme, layout, focus handling, keyboard input and the Reset buttons of `src/main.rs`: they are user interface.
- Input sanitisation (`src/main.rs:256-262`): the keystroke filter is meant to leave each square empty or holding one digit 1..9, and the model assumes it does: squares hold `Option<Digit>`. The filter does not fully achieve this, and those cases are not modelled:
  - Its length test counts bytes and runs first, so a single multi-byte character such as "é" is rewritten to itself and stays in the square. `verify_grid` would then compute a shift of 128 or more (`src/solver.rs:18-20`).
  - An entry such as "a5" is cut to "a" and only cleared on a later frame.
  - A `'0'` or other non-digit character on which the source would underflow or misbehave cannot be represented.
- `show_text` and `focus` of `Square`, and the `String` value of a square: the solver only reads whether the value is empty and its first character.
- The fact that 17 clues is the minimum for a unique solution: only the threshold check is modelled.
- Running time, and the practical cost of searches on nearly empty boards.
- Concrete example boards (the empty board, a known 17-clue puzzle and its solution): the model states the properties for all boards, not for specific instances.
- The `i32` counter and `usize` indices: the counter stays at or below 2 and all indices stay below 128, so no width limit is reached. They are modelled as unbounded integers.
- Search.Solve: a false return promises the board only up to `Restored`, not exact equality. An empty input square that carries the solver flag may come back unflagged, because the undo writes `solved_cell = false`. That happens when the search places a digit there and backtracks; a square where every digit is forbidden, or one the search never reaches, keeps its flag. The board is equal when no empty square is flagged (`Completions.RestoredClean`). `solve_grid` hides the difference by restoring its saved copy.
- SearchCorrect.SolveCorrect: requires a conflict-free board whose masks match it. `solve_grid` does not check this itself; its only caller runs `verify_grid` first.
- Classifier.SolveGridCorrect: requires a conflict-free board, for the same reason. On a board that already has a conflict, the count is not a count of solutions, and nothing is claimed about it.
- Classifier.SolveGridIdempotent: requires a conflict-free board, because it rests on `SolveGridCorrect`.
- Validator.VerifyGrid: both loops return at the first conflict, as the source does. Which square triggers the return is not part of the contract.
