/**
 The three occupancy masks of the solver (row, column, box). Each word holds
 nine 9-bit fields, one per group: bit grp * 9 + (d - 1) is set when digit d
 occurs in group grp. This module defines that layout, the set-and-undo
 discipline of the search, and what it means for masks to describe a board.
 */
module Masks {
  import opened Grid
  import opened Bits

  /** Start of group grp's 9-bit field: grp * 9. */
  function Offset(grp: int): nat
    requires 0 <= grp < 9
  {
    grp * 9
  }

  /** Bit of digit d in group grp: grp * 9 + (d - 1). */
  function Pos(grp: int, d: Digit): nat
    requires 0 <= grp < 9
  {
    Offset(grp) + (d - 1)
  }

  /** The row, column and box masks. */
  datatype Masks = Masks(row: Word, col: Word, boxes: Word)
  {
    function Get(kind: Kind): Word
    {
      match kind
      case RowGroup => row
      case ColGroup => col
      case BoxGroup => boxes
    }
  }

  const NoMasks: Masks := Masks(Zero, Zero, Zero)

  /** Digit d is recorded in group grp of the given kind. */
  predicate Occupied(m: Masks, kind: Kind, grp: int, d: Digit)
    requires 0 <= grp < 9
  {
    Has(m.Get(kind), Pos(grp, d))
  }

  /** xmask << (grp * 9), with xmask = 1 << x: digit x + 1 in square k's group of the given kind. */
  function GroupKey(kind: Kind, k: int, x: int): Word
    requires 0 <= k < 81 && 0 <= x < 9
  {
    Shl(Bit(x), Offset(Group(kind, k)))
  }

  /** Record digit x + 1 at square k: OR its bit into all three masks. */
  function Place(m: Masks, k: int, x: int): Masks
    requires 0 <= k < 81 && 0 <= x < 9
  {
    Masks(Or(m.row, GroupKey(RowGroup, k, x)),
          Or(m.col, GroupKey(ColGroup, k, x)),
          Or(m.boxes, GroupKey(BoxGroup, k, x)))
  }

  /** Undo a placement the way the source does: XOR the same three bits. */
  function Undo(m: Masks, k: int, x: int): Masks
    requires 0 <= k < 81 && 0 <= x < 9
  {
    Masks(Xor(m.row, GroupKey(RowGroup, k, x)),
          Xor(m.col, GroupKey(ColGroup, k, x)),
          Xor(m.boxes, GroupKey(BoxGroup, k, x)))
  }

  /** The digits used around square k: the three fields shifted down to bit 0 and ORed. */
  function Forbidden(m: Masks, k: int): Word
    requires 0 <= k < 81
  {
    Or(Or(Shr(m.row, Offset(Group(RowGroup, k))),
          Shr(m.col, Offset(Group(ColGroup, k)))),
       Shr(m.boxes, Offset(Group(BoxGroup, k))))
  }

  /** The search may try digit x + 1 at square k: `mask & xmask == 0`. */
  predicate Allowed(m: Masks, k: int, x: int)
    requires 0 <= k < 81 && 0 <= x < 9
  {
    And(Forbidden(m, k), Bit(x)) == Zero
  }

  // ---------------------------------------------------------------------
  // Bit layout

  /** Every bit index lies below 81, so it fits in the word, and distinct (group, digit) pairs get distinct bits. */
  lemma PosLayout(g1: int, d1: Digit, g2: int, d2: Digit)
    requires 0 <= g1 < 9 && 0 <= g2 < 9
    ensures Pos(g1, d1) < 81 <= Width
    ensures Pos(g1, d1) == Pos(g2, d2) <==> g1 == g2 && d1 == d2
  {
  }

  /** Shifting the digit bit to its group's field gives the single bit grp * 9 + x. */
  lemma GroupKeyIsBit(kind: Kind, k: int, x: int)
    requires 0 <= k < 81 && 0 <= x < 9
    ensures GroupKey(kind, k, x) == Bit(Pos(Group(kind, k), x + 1))
  {
    ShiftedBit(x, Offset(Group(kind, k)));
  }

  /** The candidate test of the search reads exactly the three recorded bits of digit x + 1. */
  lemma AllowedIff(m: Masks, k: int, x: int)
    requires 0 <= k < 81 && 0 <= x < 9
    ensures Allowed(m, k, x) <==>
              !Occupied(m, RowGroup, Group(RowGroup, k), x + 1) &&
              !Occupied(m, ColGroup, Group(ColGroup, k), x + 1) &&
              !Occupied(m, BoxGroup, Group(BoxGroup, k), x + 1)
  {
    var f := Forbidden(m, k);
    TestBit(f, x);
    ShrBit(m.row, Group(RowGroup, k), x);
    ShrBit(m.col, Group(ColGroup, k), x);
    ShrBit(m.boxes, Group(BoxGroup, k), x);
    assert Has(f, x) <==> (Has(Shr(m.row, Offset(Group(RowGroup, k))), x) ||
                           Has(Shr(m.col, Offset(Group(ColGroup, k))), x) ||
                           Has(Shr(m.boxes, Offset(Group(BoxGroup, k))), x));
  }

  /** Bit x of a word shifted down to group grp's field is the bit of digit x + 1 in that group. */
  lemma ShrBit(w: Word, grp: int, x: int)
    requires 0 <= grp < 9 && 0 <= x < 9
    ensures Has(Shr(w, Offset(grp)), x) <==> Has(w, Pos(grp, x + 1))
  {
  }

  /** After a placement the masks record the old digits plus the placed one, and nothing else. */
  lemma OccupiedAfterPlace(m: Masks, k: int, x: int, kind: Kind, grp: int, d: Digit)
    requires 0 <= k < 81 && 0 <= x < 9 && 0 <= grp < 9
    ensures Occupied(Place(m, k, x), kind, grp, d) <==>
              Occupied(m, kind, grp, d) || (grp == Group(kind, k) && d == x + 1)
  {
    GroupKeyIsBit(kind, k, x);
    PosLayout(grp, d, Group(kind, k), x + 1);
    assert Place(m, k, x).Get(kind) == Or(m.Get(kind), GroupKey(kind, k, x));
  }

  /** Set-then-undo is the identity whenever the search found the digit allowed. */
  lemma UndoPlace(m: Masks, k: int, x: int)
    requires 0 <= k < 81 && 0 <= x < 9
    requires Allowed(m, k, x)
    ensures Undo(Place(m, k, x), k, x) == m
  {
    AllowedIff(m, k, x);
    GroupKeyIsBit(RowGroup, k, x);
    GroupKeyIsBit(ColGroup, k, x);
    GroupKeyIsBit(BoxGroup, k, x);
    XorUndo(m.row, Pos(Group(RowGroup, k), x + 1));
    XorUndo(m.col, Pos(Group(ColGroup, k), x + 1));
    XorUndo(m.boxes, Pos(Group(BoxGroup, k), x + 1));
  }

  // ---------------------------------------------------------------------
  // Masks describing a board

  /** Digit d occurs among the first n squares in group grp of the given kind. */
  ghost predicate Holds(g: Board, n: int, kind: Kind, grp: int, d: Digit)
    requires 0 <= n <= 81
  {
    exists p :: 0 <= p < n && Group(kind, p) == grp && g[p].value == Some(d)
  }

  /** The masks record exactly the digits of the first n squares. */
  ghost predicate Tracks(m: Masks, g: Board, n: int)
    requires 0 <= n <= 81
  {
    forall kind: Kind, grp: int, d: Digit :: 0 <= grp < 9 ==>
      (Occupied(m, kind, grp, d) <==> Holds(g, n, kind, grp, d))
  }

  /** No bit outside the 81-bit layout is set: bits 81..127 of every mask are clear. */
  predicate InLayout(m: Masks)
  {
    forall kind: Kind, b :: b in m.Get(kind) ==> b < 81
  }

  /** The masks built from the first n squares (the double loop of solve_grid). */
  function MasksOf(g: Board, n: int): Masks
    requires 0 <= n <= 81
  {
    if n == 0 then NoMasks
    else
      var m := MasksOf(g, n - 1);
      match g[n - 1].value
      case None => m
      case Some(d) => Place(m, n - 1, d - 1)
  }

  /** The initial masks of a board record exactly its digits, and set no other bit. */
  function BuildMasks(g: Board): (m: Masks)
    ensures Tracks(m, g, 81) && InLayout(m)
  {
    MasksOfTracks(g, 81);
    MasksOfInLayout(g, 81);
    MasksOf(g, 81)
  }

  /** A placement sets only layout bits. */
  lemma PlaceInLayout(m: Masks, k: int, x: int)
    requires 0 <= k < 81 && 0 <= x < 9
    requires InLayout(m)
    ensures InLayout(Place(m, k, x))
  {
    GroupKeyIsBit(RowGroup, k, x);
    GroupKeyIsBit(ColGroup, k, x);
    GroupKeyIsBit(BoxGroup, k, x);
    forall kind: Kind
      ensures Place(m, k, x).Get(kind) == Or(m.Get(kind), Bit(Pos(Group(kind, k), x + 1)))
    {
    }
  }

  /** The masks built from a prefix set only layout bits. */
  lemma {:induction false} MasksOfInLayout(g: Board, n: int)
    requires 0 <= n <= 81
    ensures InLayout(MasksOf(g, n))
  {
    if n > 0 {
      MasksOfInLayout(g, n - 1);
      if g[n - 1].value.Some? {
        PlaceInLayout(MasksOf(g, n - 1), n - 1, g[n - 1].value.value - 1);
      }
    }
  }

  /**
   Masks that describe the whole board and stay inside the layout have bit b
   set exactly when b < 81 and digit b % 9 + 1 occurs in group b / 9.
   */
  lemma TrackedBits(m: Masks, g: Board)
    requires Tracks(m, g, 81) && InLayout(m)
    ensures forall kind: Kind, b: nat :: b in m.Get(kind) <==> b < 81 && Holds(g, 81, kind, b / 9, b % 9 + 1)
  {
    forall kind: Kind, b: nat
      ensures b in m.Get(kind) <==> b < 81 && Holds(g, 81, kind, b / 9, b % 9 + 1)
    {
      if b < 81 {
        assert Pos(b / 9, b % 9 + 1) == b;
        assert Occupied(m, kind, b / 9, b % 9 + 1) <==> Holds(g, 81, kind, b / 9, b % 9 + 1);
      }
    }
  }

  /** Holds over one more square adds that square's digit. */
  lemma HoldsStep(g: Board, n: int, kind: Kind, grp: int, d: Digit)
    requires 0 <= n < 81 && 0 <= grp < 9
    ensures Holds(g, n + 1, kind, grp, d) <==>
              Holds(g, n, kind, grp, d) || (Group(kind, n) == grp && g[n].value == Some(d))
  {
    if Holds(g, n + 1, kind, grp, d) {
      var p :| 0 <= p < n + 1 && Group(kind, p) == grp && g[p].value == Some(d);
      if p < n {
        assert Holds(g, n, kind, grp, d);
      }
    }
    if Group(kind, n) == grp && g[n].value == Some(d) {
      assert Holds(g, n + 1, kind, grp, d);
    }
  }

  /** One more square scanned: the tracked digits grow by that square's digit. */
  lemma TracksStep(m: Masks, g: Board, n: int)
    requires 0 <= n < 81
    requires Tracks(m, g, n)
    ensures g[n].value.None? ==> Tracks(m, g, n + 1)
    ensures g[n].value.Some? ==> Tracks(Place(m, n, g[n].value.value - 1), g, n + 1)
  {
    if g[n].value.Some? {
      TracksStepFilled(m, g, n);
    } else {
      forall kind: Kind, grp: int, d: Digit | 0 <= grp < 9
        ensures Occupied(m, kind, grp, d) <==> Holds(g, n + 1, kind, grp, d)
      {
        HoldsStep(g, n, kind, grp, d);
      }
    }
  }

  /** A filled square's digit is added to its three groups. */
  lemma TracksStepFilled(m: Masks, g: Board, n: int)
    requires 0 <= n < 81 && g[n].value.Some?
    requires Tracks(m, g, n)
    ensures Tracks(Place(m, n, g[n].value.value - 1), g, n + 1)
  {
    var x := g[n].value.value - 1;
    forall kind: Kind, grp: int, d: Digit | 0 <= grp < 9
      ensures Occupied(Place(m, n, x), kind, grp, d) <==> Holds(g, n + 1, kind, grp, d)
    {
      HoldsStep(g, n, kind, grp, d);
      OccupiedAfterPlace(m, n, x, kind, grp, d);
    }
  }

  /** The masks built from a prefix describe that prefix. */
  lemma {:induction false} MasksOfTracks(g: Board, n: int)
    requires 0 <= n <= 81
    ensures Tracks(MasksOf(g, n), g, n)
  {
    if n > 0 {
      var m := MasksOf(g, n - 1);
      MasksOfTracks(g, n - 1);
      TracksStep(m, g, n - 1);
      if g[n - 1].value.Some? {
        assert MasksOf(g, n) == Place(m, n - 1, g[n - 1].value.value - 1);
      } else {
        assert MasksOf(g, n) == m;
      }
    }
  }

  /** Placing a digit on an empty square keeps masks and board in step. */
  lemma PlaceTracks(m: Masks, g: Board, k: int, x: int, flag: bool)
    requires 0 <= k < 81 && 0 <= x < 9
    requires Tracks(m, g, 81)
    requires !g[k].Filled()
    ensures Tracks(Place(m, k, x), g[k := Cell(Some(x + 1), flag)], 81)
  {
    var g' := g[k := Cell(Some(x + 1), flag)];
    forall kind: Kind, grp: int, d: Digit | 0 <= grp < 9
      ensures Occupied(Place(m, k, x), kind, grp, d) <==> Holds(g', 81, kind, grp, d)
    {
      OccupiedAfterPlace(m, k, x, kind, grp, d);
      if Holds(g', 81, kind, grp, d) {
        var p :| 0 <= p < 81 && Group(kind, p) == grp && g'[p].value == Some(d);
        if p != k {
          assert Holds(g, 81, kind, grp, d);
        }
      }
      if Holds(g, 81, kind, grp, d) {
        var p :| 0 <= p < 81 && Group(kind, p) == grp && g[p].value == Some(d);
        assert g'[p] == g[p];
        assert Holds(g', 81, kind, grp, d);
      }
      if grp == Group(kind, k) && d == x + 1 {
        assert g'[k].value == Some(d);
        assert Holds(g', 81, kind, grp, d);
      }
    }
  }
}
