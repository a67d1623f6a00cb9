/**
 The solver's u128 words, represented by the set of positions of their 1-bits.
 Every position is below 128; bitwise OR, AND and XOR are union, intersection
 and symmetric difference, and shifts move positions, dropping those that
 leave the word.
 */
module Bits {

  /** The width of the source's u128. */
  const Width: nat := 128

  /** A u128 as the positions of its set bits. */
  type Word = w: set<nat> | forall b :: b in w ==> b < Width

  const Zero: Word := {}

  /** 1 << n */
  function Bit(n: nat): Word
    requires n < Width
  {
    {n}
  }

  /** Bit n of w is set. */
  predicate Has(w: Word, n: nat)
  {
    n in w
  }

  /** a | b */
  function Or(a: Word, b: Word): Word
  {
    a + b
  }

  /** a & b */
  function And(a: Word, b: Word): Word
  {
    a * b
  }

  /** a ^ b */
  function Xor(a: Word, b: Word): Word
  {
    (a - b) + (b - a)
  }

  /** w << n: every bit moves up n places; bits pushed past the top are lost. */
  function Shl(w: Word, n: nat): (r: Word)
    ensures forall b: nat :: Has(r, b) <==> n <= b < Width && Has(w, b - n)
  {
    var r := set b | b in w && b + n < Width :: b + n;
    forall b: nat | n <= b < Width && Has(w, b - n)
      ensures b in r
    {
      var a: nat := b - n;
      assert a in w && a + n == b;
    }
    r
  }

  /** w >> n: every bit moves down n places; bits below n are lost. */
  function Shr(w: Word, n: nat): (r: Word)
    ensures forall b: nat :: Has(r, b) <==> Has(w, b + n)
  {
    var r := set b | b in w && b >= n :: b - n;
    forall b: nat | Has(w, b + n)
      ensures b in r
    {
      var a: nat := b + n;
      assert a in w && a - n == b;
    }
    r
  }

  // ---------------------------------------------------------------------

  /** A word is zero exactly when it has no set bit. */
  lemma ZeroIff(w: Word)
    ensures w == Zero <==> forall n :: !Has(w, n)
  {
    if w != Zero {
      var n :| n in w;
      assert Has(w, n);
    }
  }

  /** (1 << x) << n is the single bit n + x. */
  lemma {:induction false} ShiftedBit(x: nat, n: nat)
    requires n + x < Width
    ensures Shl(Bit(x), n) == Bit(n + x)
  {
    forall b | b in Shl(Bit(x), n)
      ensures b == n + x
    {
      assert Has(Shl(Bit(x), n), b);
    }
    assert Has(Shl(Bit(x), n), n + x);
  }

  /** Testing w against 1 << x (the source's `w & (1 << x) != 0`) reads bit x. */
  lemma TestBit(w: Word, x: nat)
    requires x < Width
    ensures And(w, Bit(x)) != Zero <==> Has(w, x)
  {
    var a := And(w, Bit(x));
    ZeroIff(a);
    if a != Zero {
      var b :| Has(a, b);
      assert b == x;
    }
    if Has(w, x) {
      assert Has(a, x);
    }
  }

  /** Setting bit j and then XORing it away restores w, provided bit j was clear. */
  lemma {:induction false} XorUndo(w: Word, j: nat)
    requires j < Width
    requires !Has(w, j)
    ensures Xor(Or(w, Bit(j)), Bit(j)) == w
  {
    var r := Xor(Or(w, Bit(j)), Bit(j));
    forall n
      ensures n in r <==> n in w
    {
      assert Has(r, n) <==> Has(w, n);
    }
  }

  /** Without the precondition the XOR would clear a bit some other placement owns. */
  lemma XorUndoNeedsClearBit(w: Word, j: nat)
    requires j < Width
    requires Has(w, j)
    ensures Xor(Or(w, Bit(j)), Bit(j)) != w
  {
    assert !Has(Xor(Or(w, Bit(j)), Bit(j)), j);
  }
}
