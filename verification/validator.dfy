/**
 The validator (verify_grid): one row-major scan that builds the three masks,
 rejects the board at the first square whose digit is already recorded in its
 row, column or box, and finally requires at least 17 givens.
 */
module Validator {
  import opened Grid
  import opened Bits
  import opened Masks

  /** The validator accepts exactly the conflict-free boards with at least 17 givens. */
  method VerifyGrid(g: Board) returns (ok: bool)
    ensures ok <==> Consistent(g) && FilledCount(g) >= MinClues
  {
    var row, col, boxes := Zero, Zero, Zero;
    var cells := 0;
    for i := 0 to 9
      invariant Scanned(Masks(row, col, boxes), cells, g, i * 9)
    {
      for j := 0 to 9
        invariant Scanned(Masks(row, col, boxes), cells, g, i * 9 + j)
      {
        var k := i * 9 + j;
        if g[k].value.None? {
          EmptyStep(Masks(row, col, boxes), cells, g, k);
          continue;
        }
        cells := cells + 1;
        var key: int := g[k].value.value - 1;
        var keyRow := Bit(i * 9 + key);
        var keyCol := Bit(j * 9 + key);
        var keyBoxes := Bit((i / 3 * 3 + j / 3) * 9 + key);
        ProbeIff(Masks(row, col, boxes), cells - 1, g, i, j, keyRow, keyCol, keyBoxes);
        if Or(Or(And(row, keyRow), And(col, keyCol)), And(boxes, keyBoxes)) != Zero {
          return false;
        }
        row, col, boxes := Or(row, keyRow), Or(col, keyCol), Or(boxes, keyBoxes);
      }
    }
    return cells >= MinClues;
  }

  /** The scan has covered the first n squares: masks, consistency and count describe them. */
  ghost predicate Scanned(m: Masks, cells: int, g: Board, n: int)
    requires 0 <= n <= 81
  {
    Tracks(m, g, n) && ConsistentUpTo(g, n) && cells == CountFilled(g, n)
  }

  /** A scan that stops inside the board has already seen a clash of the whole board. */
  lemma PrefixClash(g: Board, n: int)
    requires 0 <= n <= 81
    requires !ConsistentUpTo(g, n)
    ensures !Consistent(g)
  {
    var p, q :| 0 <= p < n && 0 <= q < n && Clash(g, p, q);
    assert 0 <= p < 81 && 0 <= q < 81;
  }

  /** Skipping an empty square keeps masks, consistency and the count of givens in step. */
  lemma EmptyStep(m: Masks, cells: int, g: Board, k: int)
    requires 0 <= k < 81 && g[k].value.None?
    requires Scanned(m, cells, g, k)
    ensures Scanned(m, cells, g, k + 1)
  {
    TracksStep(m, g, k);
  }

  /**
   At a filled square (i, j) with key = digit - 1, the source's probe
   `row & key_row | col & key_col | boxes & key_boxes != 0` is nonzero exactly
   when the square clashes with an earlier one: when it is nonzero the longer
   prefix (and so the board) has a conflict, and when it is zero the longer
   prefix is conflict-free and ORing the three keys into the masks gives its
   masks.
   */
  lemma ProbeIff(m: Masks, cells: int, g: Board, i: int, j: int, keyRow: Word, keyCol: Word, keyBoxes: Word)
    requires 0 <= i < 9 && 0 <= j < 9
    requires g[i * 9 + j].value.Some?
    requires Scanned(m, cells, g, i * 9 + j)
    requires var key := g[i * 9 + j].value.value as int - 1;
             && keyRow == Bit(i * 9 + key) && keyCol == Bit(j * 9 + key)
             && keyBoxes == Bit((i / 3 * 3 + j / 3) * 9 + key)
    ensures Or(Or(And(m.row, keyRow), And(m.col, keyCol)), And(m.boxes, keyBoxes)) != Zero
            ==> !ConsistentUpTo(g, i * 9 + j + 1) && !Consistent(g)
    ensures Or(Or(And(m.row, keyRow), And(m.col, keyCol)), And(m.boxes, keyBoxes)) == Zero
            ==> Scanned(Masks(Or(m.row, keyRow), Or(m.col, keyCol), Or(m.boxes, keyBoxes)), cells + 1, g, i * 9 + j + 1)
  {
    ProbeNonzero(m, cells, g, i, j, keyRow, keyCol, keyBoxes);
    ProbeZero(m, cells, g, i, j, keyRow, keyCol, keyBoxes);
  }

  /** The nonzero half of the probe. */
  lemma ProbeNonzero(m: Masks, cells: int, g: Board, i: int, j: int, keyRow: Word, keyCol: Word, keyBoxes: Word)
    requires 0 <= i < 9 && 0 <= j < 9
    requires g[i * 9 + j].value.Some?
    requires Scanned(m, cells, g, i * 9 + j)
    requires var key := g[i * 9 + j].value.value as int - 1;
             && keyRow == Bit(i * 9 + key) && keyCol == Bit(j * 9 + key)
             && keyBoxes == Bit((i / 3 * 3 + j / 3) * 9 + key)
    ensures Or(Or(And(m.row, keyRow), And(m.col, keyCol)), And(m.boxes, keyBoxes)) != Zero
            ==> !ConsistentUpTo(g, i * 9 + j + 1) && !Consistent(g)
  {
    var k := i * 9 + j;
    var d := g[k].value.value;
    KeyBits(i, j, d, keyRow, keyCol, keyBoxes);
    ProbeBits(m, k, d, keyRow, keyCol, keyBoxes);
    if Or(Or(And(m.row, keyRow), And(m.col, keyCol)), And(m.boxes, keyBoxes)) != Zero {
      ProbeHit(m, cells, g, k);
    }
  }

  /** The zero half of the probe. */
  lemma ProbeZero(m: Masks, cells: int, g: Board, i: int, j: int, keyRow: Word, keyCol: Word, keyBoxes: Word)
    requires 0 <= i < 9 && 0 <= j < 9
    requires g[i * 9 + j].value.Some?
    requires Scanned(m, cells, g, i * 9 + j)
    requires var key := g[i * 9 + j].value.value as int - 1;
             && keyRow == Bit(i * 9 + key) && keyCol == Bit(j * 9 + key)
             && keyBoxes == Bit((i / 3 * 3 + j / 3) * 9 + key)
    ensures Or(Or(And(m.row, keyRow), And(m.col, keyCol)), And(m.boxes, keyBoxes)) == Zero
            ==> Scanned(Masks(Or(m.row, keyRow), Or(m.col, keyCol), Or(m.boxes, keyBoxes)), cells + 1, g, i * 9 + j + 1)
  {
    var k := i * 9 + j;
    var d := g[k].value.value;
    KeyBits(i, j, d, keyRow, keyCol, keyBoxes);
    ProbeBits(m, k, d, keyRow, keyCol, keyBoxes);
    if Or(Or(And(m.row, keyRow), And(m.col, keyCol)), And(m.boxes, keyBoxes)) == Zero {
      ProbeMiss(m, cells, g, k, keyRow, keyCol, keyBoxes);
    }
  }

  /** A square whose digit one of its groups already records is a conflict of the prefix ending there, and of the board. */
  lemma ProbeHit(m: Masks, cells: int, g: Board, k: int)
    requires 0 <= k < 81 && g[k].value.Some?
    requires Scanned(m, cells, g, k)
    requires exists kind: Kind :: Occupied(m, kind, Group(kind, k), g[k].value.value)
    ensures !ConsistentUpTo(g, k + 1) && !Consistent(g)
  {
    ClashFromHit(m, g, k);
    PrefixClash(g, k + 1);
  }

  /** A square whose digit none of its groups records extends the scan: OR in its keys and count it. */
  lemma ProbeMiss(m: Masks, cells: int, g: Board, k: int, keyRow: Word, keyCol: Word, keyBoxes: Word)
    requires 0 <= k < 81 && g[k].value.Some?
    requires Scanned(m, cells, g, k)
    requires keyRow == Bit(Pos(Group(RowGroup, k), g[k].value.value))
    requires keyCol == Bit(Pos(Group(ColGroup, k), g[k].value.value))
    requires keyBoxes == Bit(Pos(Group(BoxGroup, k), g[k].value.value))
    requires forall kind: Kind :: !Occupied(m, kind, Group(kind, k), g[k].value.value)
    ensures Scanned(Masks(Or(m.row, keyRow), Or(m.col, keyCol), Or(m.boxes, keyBoxes)), cells + 1, g, k + 1)
  {
    var placed := Place(m, k, g[k].value.value - 1);
    PlaceIsOr(m, k, g[k].value.value, keyRow, keyCol, keyBoxes);
    TracksStep(m, g, k);
    assert Tracks(placed, g, k + 1);
    NoClashExtends(m, g, k);
    assert CountFilled(g, k + 1) == cells + 1;
    assert Scanned(placed, cells + 1, g, k + 1);
  }

  /** ORing the three probe keys into the masks is the placement of digit d at square k. */
  lemma PlaceIsOr(m: Masks, k: int, d: Digit, keyRow: Word, keyCol: Word, keyBoxes: Word)
    requires 0 <= k < 81
    requires keyRow == Bit(Pos(Group(RowGroup, k), d))
    requires keyCol == Bit(Pos(Group(ColGroup, k), d))
    requires keyBoxes == Bit(Pos(Group(BoxGroup, k), d))
    ensures Place(m, k, d - 1) == Masks(Or(m.row, keyRow), Or(m.col, keyCol), Or(m.boxes, keyBoxes))
  {
    GroupKeyIsBit(RowGroup, k, d - 1);
    GroupKeyIsBit(ColGroup, k, d - 1);
    GroupKeyIsBit(BoxGroup, k, d - 1);
  }

  /** The source's bit indices i * 9 + key, j * 9 + key and (i / 3 * 3 + j / 3) * 9 + key are the layout positions. */
  lemma KeyPositions(i: int, j: int, d: Digit)
    requires 0 <= i < 9 && 0 <= j < 9
    ensures i * 9 + (d - 1) == Pos(Group(RowGroup, i * 9 + j), d)
    ensures j * 9 + (d - 1) == Pos(Group(ColGroup, i * 9 + j), d)
    ensures (i / 3 * 3 + j / 3) * 9 + (d - 1) == Pos(Group(BoxGroup, i * 9 + j), d)
  {
    var k := i * 9 + j;
    assert k / 9 == i && k % 9 == j;
  }

  /** The source's three keys are the single bits of digit d at the layout positions of square (i, j). */
  lemma KeyBits(i: int, j: int, d: Digit, keyRow: Word, keyCol: Word, keyBoxes: Word)
    requires 0 <= i < 9 && 0 <= j < 9
    requires keyRow == Bit(i * 9 + (d as int - 1)) && keyCol == Bit(j * 9 + (d as int - 1))
    requires keyBoxes == Bit((i / 3 * 3 + j / 3) * 9 + (d as int - 1))
    ensures keyRow == Bit(Pos(Group(RowGroup, i * 9 + j), d))
    ensures keyCol == Bit(Pos(Group(ColGroup, i * 9 + j), d))
    ensures keyBoxes == Bit(Pos(Group(BoxGroup, i * 9 + j), d))
  {
    KeyPositions(i, j, d);
  }

  /** The probe is nonzero exactly when one of square k's groups already records digit d. */
  lemma ProbeBits(m: Masks, k: int, d: Digit, keyRow: Word, keyCol: Word, keyBoxes: Word)
    requires 0 <= k < 81
    requires keyRow == Bit(Pos(Group(RowGroup, k), d))
    requires keyCol == Bit(Pos(Group(ColGroup, k), d))
    requires keyBoxes == Bit(Pos(Group(BoxGroup, k), d))
    ensures Or(Or(And(m.row, keyRow), And(m.col, keyCol)), And(m.boxes, keyBoxes)) != Zero
            <==> exists kind: Kind :: Occupied(m, kind, Group(kind, k), d)
  {
    var probe := Or(Or(And(m.row, keyRow), And(m.col, keyCol)), And(m.boxes, keyBoxes));
    TestBit(m.row, Pos(Group(RowGroup, k), d));
    TestBit(m.col, Pos(Group(ColGroup, k), d));
    TestBit(m.boxes, Pos(Group(BoxGroup, k), d));
    ZeroIff(probe);
    ZeroIff(And(m.row, keyRow));
    ZeroIff(And(m.col, keyCol));
    ZeroIff(And(m.boxes, keyBoxes));
    if probe != Zero {
      if Occupied(m, RowGroup, Group(RowGroup, k), d) {
      } else if Occupied(m, ColGroup, Group(ColGroup, k), d) {
      } else {
        assert Occupied(m, BoxGroup, Group(BoxGroup, k), d);
      }
    }
    if exists kind: Kind :: Occupied(m, kind, Group(kind, k), d) {
      var kind: Kind :| Occupied(m, kind, Group(kind, k), d);
      assert kind == RowGroup || kind == ColGroup || kind == BoxGroup;
    }
  }

  /** A recorded digit in one of square k's groups means an earlier square clashes with k. */
  lemma ClashFromHit(m: Masks, g: Board, k: int)
    requires 0 <= k < 81 && g[k].value.Some?
    requires Tracks(m, g, k)
    requires exists kind: Kind :: Occupied(m, kind, Group(kind, k), g[k].value.value)
    ensures !ConsistentUpTo(g, k + 1)
  {
    var d := g[k].value.value;
    var kind: Kind :| Occupied(m, kind, Group(kind, k), d);
    assert Holds(g, k, kind, Group(kind, k), d);
    var p :| 0 <= p < k && Group(kind, p) == Group(kind, k) && g[p].value == Some(d);
    assert Clash(g, p, k);
  }

  /** If none of square k's groups records its digit, the first k + 1 squares are conflict-free. */
  lemma NoClashExtends(m: Masks, g: Board, k: int)
    requires 0 <= k < 81 && g[k].value.Some?
    requires Tracks(m, g, k) && ConsistentUpTo(g, k)
    requires forall kind: Kind :: !Occupied(m, kind, Group(kind, k), g[k].value.value)
    ensures ConsistentUpTo(g, k + 1)
  {
    var d := g[k].value.value;
    forall p, q | 0 <= p < k + 1 && 0 <= q < k + 1
      ensures !Clash(g, p, q)
    {
      if p != q && (p == k || q == k) {
        var o := if p == k then q else p;
        if Clash(g, p, q) {
          assert g[o].value == Some(d);
          var kind: Kind :| Group(kind, o) == Group(kind, k);
          assert Holds(g, k, kind, Group(kind, k), d);
        }
      }
    }
  }
}
