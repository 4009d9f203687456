/**
 Words of 32 bits: the operations the label state uses, and the few facts about
 them that the rest of the model relies on.
 */
module Bits {

  function And(a: bv32, b: bv32): bv32 {
    a & b
  }

  function Or(a: bv32, b: bv32): bv32 {
    a | b
  }

  /** `a & ~b`. */
  function AndNot(a: bv32, b: bv32): bv32 {
    a & !b
  }

  function Bit(k: nat): bv32
    requires k < 32
  {
    (1 as bv32) << k
  }

  lemma OneHot(i: nat, j: nat)
    requires i < 32 && j < 32
    ensures And(Bit(i), Bit(j)) != 0 <==> i == j
  {
  }

  lemma ClearBoth(a: bv32, b: bv32, c: bv32)
    requires And(a, c) == 0 && And(b, c) == 0
    ensures And(Or(a, b), c) == 0
  {
  }

  lemma ClearLeft(a: bv32, b: bv32, c: bv32)
    requires And(Or(a, b), c) == 0
    ensures And(a, c) == 0
  {
  }

  lemma ClearRight(a: bv32, b: bv32, c: bv32)
    requires And(Or(a, b), c) == 0
    ensures And(b, c) == 0
  {
  }

  /** A bit is clear in a union when it is clear in both parts. */
  lemma ClearInOr(a: bv32, b: bv32, c: bv32)
    ensures And(Or(a, b), c) == 0 <==> And(a, c) == 0 && And(b, c) == 0
  {
    hide And, Or;
    if And(Or(a, b), c) == 0 {
      ClearLeft(a, b, c);
      ClearRight(a, b, c);
    } else if And(a, c) == 0 && And(b, c) == 0 {
      ClearBoth(a, b, c);
    }
  }

  lemma AndZero(a: bv32)
    ensures And(a, 0) == 0 && And(0, a) == 0
  {
  }

  lemma InsideBoth(a: bv32, c: bv32, b: bv32)
    requires AndNot(a, b) == 0 && AndNot(c, b) == 0
    ensures AndNot(Or(a, c), b) == 0
  {
  }

  lemma InsideLeft(a: bv32, c: bv32, b: bv32)
    requires AndNot(Or(a, c), b) == 0
    ensures AndNot(a, b) == 0
  {
  }

  lemma InsideRight(a: bv32, c: bv32, b: bv32)
    requires AndNot(Or(a, c), b) == 0
    ensures AndNot(c, b) == 0
  {
  }

  /** A union lies inside `b` when both parts do. */
  lemma InsideOr(a: bv32, c: bv32, b: bv32)
    ensures AndNot(Or(a, c), b) == 0 <==> AndNot(a, b) == 0 && AndNot(c, b) == 0
  {
    hide AndNot, Or;
    if AndNot(Or(a, c), b) == 0 {
      InsideLeft(a, c, b);
      InsideRight(a, c, b);
    } else if AndNot(a, b) == 0 && AndNot(c, b) == 0 {
      InsideBoth(a, c, b);
    }
  }

  lemma BitInside(k: nat, b: bv32)
    requires k < 32 && AndNot(Bit(k), b) == 0
    ensures And(b, Bit(k)) != 0
  {
  }

  lemma BitOutside(k: nat, b: bv32)
    requires k < 32 && And(b, Bit(k)) != 0
    ensures AndNot(Bit(k), b) == 0
  {
  }

  lemma NothingInside(b: bv32)
    ensures AndNot(0, b) == 0
  {
  }
}
